/**
 * Assembler text for a run of bytes: rows of `wrap` hexadecimal literals,
 * each row opened by the `!byte ` directive, the literals separated by commas,
 * and every row (the last, partial one included) ended by a newline.
 */
module ByteRows {
  import opened Bytes
  import opened Wrappers

  /** The data directive that opens every row (ACME syntax). */
  const Prefix: string := "!byte "

  /** One lower-case hexadecimal digit. */
  function HexDigit(d: nat): char
    requires d < 16
  {
    if d < 10 then ('0' as int + d) as char else ('a' as int + d - 10) as char
  }

  /** `$` and two lower-case hexadecimal digits: the byte's unsigned value, as `%02x` prints a Java byte. */
  function HexByte(b: byte): (lit: string)
    ensures |lit| == 3 && lit[0] == '$'
  {
    ['$', HexDigit(b / 16), HexDigit(b % 16)]
  }

  /** The value of a lower-case hexadecimal digit. */
  function DigitValue(c: char): Option<nat>
  {
    if '0' <= c <= '9' then Some(c as int - '0' as int)
    else if 'a' <= c <= 'f' then Some(c as int - 'a' as int + 10)
    else None
  }

  /** Reads a `$xx` literal back. */
  function ParseHexByte(lit: string): Option<byte>
  {
    if |lit| != 3 || lit[0] != '$' then None
    else match (DigitValue(lit[1]), DigitValue(lit[2]))
      case (Some(hi), Some(lo)) => if hi < 16 && lo < 16 then Some(hi * 16 + lo) else None
      case _ => None
  }

  /** Round trip: a printed literal reads back as the byte it was printed from. */
  lemma HexByteParse(b: byte)
    ensures ParseHexByte(HexByte(b)) == Some(b)
  {
    var hi, lo := b / 16, b % 16;
    assert DigitValue(HexDigit(hi)) == Some(hi) by { DigitRoundTrip(hi); }
    assert DigitValue(HexDigit(lo)) == Some(lo) by { DigitRoundTrip(lo); }
  }

  lemma DigitRoundTrip(d: nat)
    requires d < 16
    ensures DigitValue(HexDigit(d)) == Some(d)
  {
  }

  /** Distinct bytes print as distinct literals. */
  lemma HexByteInjective(a: byte, b: byte)
    requires HexByte(a) == HexByte(b)
    ensures a == b
  {
    HexByteParse(a);
    HexByteParse(b);
  }

  /** The literals of a non-empty run of bytes, separated by commas. */
  function Join(chunk: seq<byte>): string
    requires |chunk| > 0
    decreases |chunk|
  {
    if |chunk| == 1 then HexByte(chunk[0])
    else Join(chunk[..|chunk| - 1]) + "," + HexByte(chunk[|chunk| - 1])
  }

  /** One row: the directive, the literals, a newline. */
  function Line(chunk: seq<byte>): string
    requires |chunk| > 0
  {
    Partial(chunk) + "\n"
  }

  /** A row under construction: the directive and the literals so far, or nothing before its first byte. */
  function Partial(chunk: seq<byte>): string
  {
    if |chunk| == 0 then "" else Prefix + Join(chunk)
  }

  /** The bytes cut into rows of `wrap`, the last row holding what is left. */
  function Split(input: seq<byte>, wrap: nat): (rows: seq<seq<byte>>)
    requires wrap > 0
    ensures forall k :: 0 <= k < |rows| ==> |rows[k]| > 0
    decreases |input|
  {
    if |input| == 0 then []
    else if |input| <= wrap then [input]
    else [input[..wrap]] + Split(input[wrap..], wrap)
  }

  /** The rows laid out one per line. */
  function Text(rows: seq<seq<byte>>): string
    requires forall k :: 0 <= k < |rows| ==> |rows[k]| > 0
  {
    if |rows| == 0 then "" else Text(rows[..|rows| - 1]) + Line(rows[|rows| - 1])
  }

  /** The reference layout: the rows of `wrap` bytes, one per line. */
  function Rows(input: seq<byte>, wrap: nat): string
    requires wrap > 0
  {
    Text(Split(input, wrap))
  }

  /** The rows put back together. */
  function Flatten(rows: seq<seq<byte>>): seq<byte>
  {
    if |rows| == 0 then [] else rows[0] + Flatten(rows[1..])
  }

  /** `n` bytes make whole rows of `wrap`. */
  predicate Whole(n: nat, wrap: nat)
    requires wrap > 0
    decreases n
  {
    n == 0 || (n >= wrap && Whole(n - wrap, wrap))
  }

  /** Whole rows followed by more bytes split as the rows, then the rest. */
  lemma {:induction false} SplitConcat(a: seq<byte>, b: seq<byte>, wrap: nat)
    requires wrap > 0 && Whole(|a|, wrap)
    ensures Split(a + b, wrap) == Split(a, wrap) + Split(b, wrap)
    decreases |a|
  {
    if |a| == 0 {
      assert a + b == b;
    } else if |b| == 0 {
      assert a + b == a;
    } else {
      var ab := a + b;
      assert ab[..wrap] == a[..wrap];
      assert ab[wrap..] == a[wrap..] + b;
      SplitConcat(a[wrap..], b, wrap);
      if |a| == wrap {
        assert a[wrap..] == [] && a[..wrap] == a;
      }
    }
  }

  /** Round trip: the rows hold the input, in order, every byte exactly once. */
  lemma {:induction false} SplitFlatten(input: seq<byte>, wrap: nat)
    requires wrap > 0
    ensures Flatten(Split(input, wrap)) == input
    decreases |input|
  {
    if |input| > 0 && |input| > wrap {
      SplitFlatten(input[wrap..], wrap);
      assert input[..wrap] + input[wrap..] == input;
    }
  }

  /** Every row holds `wrap` bytes but the last, which holds between 1 and `wrap`; there are ceil(len / wrap) rows. */
  lemma {:induction false} SplitShape(input: seq<byte>, wrap: nat)
    requires wrap > 0
    ensures var rows := Split(input, wrap);
      && |rows| == (|input| + wrap - 1) / wrap
      && (forall k :: 0 <= k < |rows| - 1 ==> |rows[k]| == wrap)
      && (|rows| > 0 ==> 0 < |rows[|rows| - 1]| <= wrap)
    decreases |input|
  {
    if |input| == 0 {
      DivModUnique(wrap - 1, wrap, 0, wrap - 1);
    } else if |input| <= wrap {
      DivModUnique(|input| + wrap - 1, wrap, 1, |input| - 1);
    } else {
      SplitShape(input[wrap..], wrap);
      CeilStep(|input| - wrap, wrap);
    }
  }

  /** Counting from the start of a row, the remainder by `wrap` is the position within the row. */
  lemma {:induction false} ModWhole(start: nat, wrap: nat, k: nat)
    requires wrap > 0 && Whole(start, wrap) && k < wrap
    ensures (start + k) % wrap == k
    decreases start
  {
    if start == 0 {
      DivModUnique(k, wrap, 0, k);
    } else {
      var x := start - wrap + k;
      ModWhole(start - wrap, wrap, k);
      var d := x / wrap;
      assert x == d * wrap + k;
      assert (d + 1) * wrap == d * wrap + wrap;
      DivModUnique(start + k, wrap, d + 1, k);
    }
  }

  /** The Euclidean quotient and remainder are unique. */
  lemma DivModUnique(x: int, w: int, q: int, m: int)
    requires w > 0 && 0 <= m < w && x == q * w + m
    ensures x % w == m && x / w == q
  {
    var q', m' := x / w, x % w;
    if q' < q {
      MulGap(q, q', w);
    } else if q' > q {
      MulGap(q', q, w);
    }
  }

  /** Multiples of `w` with different factors are at least `w` apart. */
  lemma MulGap(a: int, b: int, w: int)
    requires a > b && w > 0
    ensures a * w - b * w >= w
  {
    assert a * w - b * w == (a - b) * w;
    MulAtLeast(a - b, w);
  }

  lemma {:induction false} MulAtLeast(k: nat, w: int)
    requires k >= 1 && w > 0
    ensures k * w >= w
  {
    if k > 1 {
      MulAtLeast(k - 1, w);
      assert k * w == (k - 1) * w + w;
    }
  }

  /** The literal for byte `i`, and the separator or directive before it, extend the row begun at `start`. */
  lemma AppendLiteral(s: seq<byte>, wrap: nat, start: nat, i: nat, next: nat)
    requires wrap > 0 && Whole(start, wrap) && start <= i < |s| && i < start + wrap && next == i + 1
    ensures Partial(s[start..next]) == Partial(s[start..i]) + Item(i, wrap, s[i])
  {
    if i > start {
      NotWhole(start, wrap, i);
    }
    var row := s[start..next];
    assert row[..|row| - 1] == s[start..i];
    if i == start {
      assert Partial(row) == Prefix + HexByte(s[i]);
    } else {
      assert Partial(row) == Prefix + (Join(s[start..i]) + "," + HexByte(s[i]));
      Assoc(Prefix, Join(s[start..i]), ",", HexByte(s[i]));
      Assoc3(Prefix + Join(s[start..i]), ",", HexByte(s[i]));
    }
  }

  /** A completed row, with its newline, is one more row of the layout. */
  lemma CloseRow(s: seq<byte>, wrap: nat, start: nat, next: nat)
    requires wrap > 0 && Whole(start, wrap) && next == start + wrap <= |s|
    ensures Whole(next, wrap)
    ensures Rows(s[..next], wrap) == Rows(s[..start], wrap) + Partial(s[start..next]) + "\n"
  {
    var row := s[start..next];
    SplitConcat(s[..start], row, wrap);
    assert s[..start] + row == s[..next];
    assert Split(row, wrap) == [row];
    assert Text(Split(s[..start], wrap) + [row]) == Text(Split(s[..start], wrap)) + Line(row);
  }

  /** After the last byte, a partial row still needs its newline, and then the layout is complete. */
  lemma FinishRows(s: seq<byte>, wrap: nat, start: nat)
    requires wrap > 0 && Whole(start, wrap) && start <= |s| < start + wrap
    ensures Rows(s, wrap) == Rows(s[..start], wrap) + Partial(s[start..]) + (if |s| != start then "\n" else "")
  {
    if |s| != start {
      FinishPartial(s, wrap, start);
    } else {
      assert s[..start] == s && s[start..] == [];
    }
  }

  lemma FinishPartial(s: seq<byte>, wrap: nat, start: nat)
    requires wrap > 0 && Whole(start, wrap) && start < |s| < start + wrap
    ensures Rows(s, wrap) == Rows(s[..start], wrap) + Partial(s[start..]) + "\n"
  {
    var last := s[start..];
    var done := Split(s[..start], wrap);
    SplitConcat(s[..start], last, wrap);
    assert s[..start] + last == s;
    assert Split(last, wrap) == [last];
    assert (done + [last])[..|done|] == done;
    assert Text(done + [last]) == Text(done) + Line(last);
    Assoc3(Text(done), Partial(last), "\n");
  }

  /** The separator or directive before the literal of byte `i`, and the literal. */
  function Item(i: nat, wrap: nat, b: byte): string
    requires wrap > 0
  {
    (if Whole(i, wrap) then Prefix else ",") + HexByte(b)
  }

  /**
   * The text AppendByteRows has written once it has passed the bytes `s`:
   * every literal after the directive (at a multiple of `wrap`) or a comma,
   * and a newline after every multiple of `wrap` bytes.
   */
  function Written(s: seq<byte>, wrap: nat): string
    requires wrap > 0
  {
    if |s| == 0 then ""
    else if Whole(|s|, wrap) then Written(s[..|s| - 1], wrap) + Item(|s| - 1, wrap, s[|s| - 1]) + "\n"
    else Written(s[..|s| - 1], wrap) + Item(|s| - 1, wrap, s[|s| - 1])
  }

  /** The start of the row that holds position `n`. */
  ghost function RowStart(n: nat, wrap: nat): (start: nat)
    requires wrap > 0
    ensures Whole(start, wrap) && start <= n < start + wrap
    decreases n
  {
    if n < wrap then 0 else RowStart(n - wrap, wrap) + wrap
  }

  /** Written text, mid-row: the completed rows of the layout, then the row begun at `start` so far. */
  lemma {:induction false} WrittenRows(s: seq<byte>, wrap: nat, start: nat, i: nat)
    requires wrap > 0 && Whole(start, wrap) && start <= i <= |s| && i < start + wrap
    ensures Written(s[..i], wrap) == Rows(s[..start], wrap) + Partial(s[start..i])
    decreases i, 2
  {
    if i == 0 {
      WrittenNone(s, wrap);
    } else if i == start {
      WrittenRowEnd(s, wrap, start - wrap, start);
      PartialEmpty(s[start..i]);
      EmptyChain(Written(s[..i], wrap), Rows(s[..start], wrap), Partial(s[start..i]));
    } else {
      WrittenMid(s, wrap, start, i);
    }
  }

  /** Before the first byte nothing is written. */
  lemma WrittenNone(s: seq<byte>, wrap: nat)
    requires wrap > 0
    ensures Written(s[..0], wrap) == Rows(s[..0], wrap) + Partial(s[0..0])
  {
    assert s[..0] == [] && s[0..0] == [];
  }

  lemma PartialEmpty(chunk: seq<byte>)
    requires |chunk| == 0
    ensures Partial(chunk) == ""
  {
  }

  /** One more byte written inside a row: its item. */
  lemma WrittenItem(s: seq<byte>, wrap: nat, i: nat)
    requires wrap > 0 && 0 < i <= |s| && !Whole(i, wrap)
    ensures Written(s[..i], wrap) == Written(s[..i - 1], wrap) + Item(i - 1, wrap, s[i - 1])
  {
    assert s[..i][..i - 1] == s[..i - 1];
    WrittenUnfold(s[..i], wrap);
  }

  lemma WrittenUnfold(w: seq<byte>, wrap: nat)
    requires wrap > 0 && |w| > 0 && !Whole(|w|, wrap)
    ensures Written(w, wrap) == Written(w[..|w| - 1], wrap) + Item(|w| - 1, wrap, w[|w| - 1])
  {
  }

  /** One more byte written at a row's end: its item and a newline. */
  lemma WrittenLine(s: seq<byte>, wrap: nat, i: nat)
    requires wrap > 0 && 0 < i <= |s| && Whole(i, wrap)
    ensures Written(s[..i], wrap) == Written(s[..i - 1], wrap) + Item(i - 1, wrap, s[i - 1]) + "\n"
  {
    assert s[..i][..i - 1] == s[..i - 1];
    WrittenUnfoldLine(s[..i], wrap);
  }

  lemma WrittenUnfoldLine(w: seq<byte>, wrap: nat)
    requires wrap > 0 && |w| > 0 && Whole(|w|, wrap)
    ensures Written(w, wrap) == Written(w[..|w| - 1], wrap) + Item(|w| - 1, wrap, w[|w| - 1]) + "\n"
  {
  }

  /** The byte before a row's start completes the previous row. */
  lemma {:induction false} WrittenRowEnd(s: seq<byte>, wrap: nat, prev: nat, start: nat)
    requires wrap > 0 && Whole(prev, wrap) && start == prev + wrap <= |s|
    ensures Written(s[..start], wrap) == Rows(s[..start], wrap)
    decreases start, 1
  {
    RowClosed(s, wrap, prev, start);
    WrittenLine(s, wrap, start);
  }

  /** The layout up to a row's end is the text written before the row's last byte, its item and a newline. */
  lemma {:induction false} RowClosed(s: seq<byte>, wrap: nat, prev: nat, start: nat)
    requires wrap > 0 && Whole(prev, wrap) && start == prev + wrap <= |s|
    ensures Rows(s[..start], wrap) == Written(s[..start - 1], wrap) + Item(start - 1, wrap, s[start - 1]) + "\n"
    decreases start, 0
  {
    WrittenRows(s, wrap, prev, start - 1);
    AppendLiteral(s, wrap, prev, start - 1, start);
    CloseRow(s, wrap, prev, start);
    CloseChain(Written(s[..start - 1], wrap), Rows(s[..prev], wrap),
      Partial(s[prev..start - 1]), Partial(s[prev..start]), Item(start - 1, wrap, s[start - 1]), Rows(s[..start], wrap));
  }

  /** A byte inside the row begun at `start` extends that row. */
  lemma {:induction false} WrittenMid(s: seq<byte>, wrap: nat, start: nat, i: nat)
    requires wrap > 0 && Whole(start, wrap) && start < i <= |s| && i < start + wrap
    ensures Written(s[..i], wrap) == Rows(s[..start], wrap) + Partial(s[start..i])
    decreases i, 1
  {
    WrittenRows(s, wrap, start, i - 1);
    NotWhole(start, wrap, i);
    WrittenItem(s, wrap, i);
    AppendLiteral(s, wrap, start, i - 1, i);
    Chain(Written(s[..i], wrap), Written(s[..i - 1], wrap), Rows(s[..start], wrap),
      Partial(s[start..i - 1]), Partial(s[start..i]), Item(i - 1, wrap, s[i - 1]));
  }

  /** All bytes written, the final newline after a partial row completes the layout. */
  lemma WrittenComplete(s: seq<byte>, wrap: nat)
    requires wrap > 0
    ensures !Whole(|s|, wrap) ==> Written(s, wrap) + "\n" == Rows(s, wrap)
    ensures Whole(|s|, wrap) ==> Written(s, wrap) == Rows(s, wrap)
  {
    var start := RowStart(|s|, wrap);
    assert s[..|s|] == s && s[start..|s|] == s[start..];
    WrittenRows(s, wrap, start, |s|);
    FinishRows(s, wrap, start);
    if |s| == start {
      assert Partial(s[start..]) == "";
    } else {
      NotWhole(start, wrap, |s|);
    }
  }

  /** Inside a row, no position is a multiple of `wrap`. */
  lemma {:induction false} NotWhole(start: nat, wrap: nat, i: nat)
    requires wrap > 0 && Whole(start, wrap) && start < i < start + wrap
    ensures !Whole(i, wrap)
    decreases start
  {
    if start > 0 {
      NotWhole(start - wrap, wrap, i - wrap);
    }
  }

  /** `Whole` is Java's `n % wrap == 0` on non-negative counts. */
  lemma WholeMod(n: nat, wrap: nat)
    requires wrap > 0
    ensures Whole(n, wrap) <==> n % wrap == 0
  {
    var start := RowStart(n, wrap);
    ModWhole(start, wrap, n - start);
    if n > start {
      NotWhole(start, wrap, n);
    }
  }

  /**
   * Java's `appendByteRows`: walks the first `len` bytes of `input`, opening a
   * row with the directive at every multiple of `wrap` and separating the
   * others with a comma, ending each full row with a newline, and the last one
   * with a newline when it is partial. The text is the reference layout.
   */
  method AppendByteRows(sb: string, input: array<byte>, len: nat, wrap: nat) returns (out: string)
    requires len <= input.Length && wrap > 0
    ensures out == sb + Rows(input[..len], wrap)
  {
    ghost var s := input[..len];
    out := sb;
    var i := 0;
    while i < len
      invariant i <= len && out == sb + Written(s[..i], wrap)
    {
      ghost var before := Written(s[..i], wrap);
      ghost var w := s[..i + 1];
      assert w[..i] == s[..i] && w[i] == input[i];
      WholeMod(i, wrap);
      WholeMod(i + 1, wrap);
      out := out + ((if i % wrap == 0 then Prefix else ",") + HexByte(input[i]));
      i := i + 1;
      Assoc3(sb, before, Item(i - 1, wrap, input[i - 1]));
      if i % wrap == 0 {
        Assoc3(sb, before + Item(i - 1, wrap, input[i - 1]), "\n");
        out := out + "\n";
      }
    }
    assert s[..i] == s;
    WholeMod(i, wrap);
    WrittenComplete(s, wrap);
    if i % wrap != 0 {
      Assoc3(sb, Written(s, wrap), "\n");
      out := out + "\n";
    }
  }

  /** Occurrences of `c` in `s`. */
  function Count(s: string, c: char): nat
  {
    multiset(s)[c]
  }

  lemma CountConcat(a: string, b: string)
    ensures Count(a + b, '$') == Count(a, '$') + Count(b, '$')
    ensures Count(a + b, '\n') == Count(a, '\n') + Count(b, '\n')
  {
    assert multiset(a + b) == multiset(a) + multiset(b);
  }

  /** A character that does not occur is counted zero times. */
  lemma Absent(s: string, c: char)
    requires forall k :: 0 <= k < |s| ==> s[k] != c
    ensures Count(s, c) == 0
  {
    assert c !in s;
  }

  /** A literal, with or without the comma before it, holds one dollar sign and no newline. */
  lemma LiteralCounts(b: byte)
    ensures Count(HexByte(b), '$') == 1 && Count(HexByte(b), '\n') == 0
    ensures Count("," + HexByte(b), '$') == 1 && Count("," + HexByte(b), '\n') == 0
  {
    var lit := HexByte(b);
    assert lit == ['$'] + lit[1..];
    assert lit[1] == HexDigit(b / 16) && lit[2] == HexDigit(b % 16);
    Absent(lit[1..], '$');
    Absent(lit, '\n');
    Absent(",", '$');
    Absent(",", '\n');
    CountConcat(['$'], lit[1..]);
    CountConcat(",", lit);
  }

  /** A row of `k` literals holds `k` dollar signs and no newline. */
  lemma {:induction false} JoinCounts(chunk: seq<byte>)
    requires |chunk| > 0
    ensures Count(Join(chunk), '$') == |chunk| && Count(Join(chunk), '\n') == 0
    decreases |chunk|
  {
    var n := |chunk|;
    LiteralCounts(chunk[n - 1]);
    if n > 1 {
      var front := Join(chunk[..n - 1]);
      JoinCounts(chunk[..n - 1]);
      assert Join(chunk) == front + ("," + HexByte(chunk[n - 1]));
      CountConcat(front, "," + HexByte(chunk[n - 1]));
    }
  }

  /** One row holds its literals' dollar signs and a single newline. */
  lemma LineCounts(chunk: seq<byte>)
    requires |chunk| > 0
    ensures Count(Line(chunk), '$') == |chunk| && Count(Line(chunk), '\n') == 1
  {
    JoinCounts(chunk);
    PrefixCounts();
    Absent("\n", '$');
    assert Count("\n", '\n') == 1 by {
      assert multiset("\n") == multiset{'\n'};
    }
    CountConcat(Prefix, Join(chunk));
    CountConcat(Partial(chunk), "\n");
  }

  /** The directive holds neither a dollar sign nor a newline. */
  lemma PrefixCounts()
    ensures Count(Prefix, '$') == 0 && Count(Prefix, '\n') == 0
  {
    assert forall k :: 0 <= k < |Prefix| ==> Prefix[k] != '$' && Prefix[k] != '\n';
    Absent(Prefix, '$');
    Absent(Prefix, '\n');
  }

  /** Total number of bytes in the rows. */
  function TotalLength(rows: seq<seq<byte>>): nat
  {
    if |rows| == 0 then 0 else TotalLength(rows[..|rows| - 1]) + |rows[|rows| - 1]|
  }

  /** Laid-out rows print one literal per byte and one newline per row. */
  lemma {:induction false} TextCounts(rows: seq<seq<byte>>)
    requires forall k :: 0 <= k < |rows| ==> |rows[k]| > 0
    ensures Count(Text(rows), '$') == TotalLength(rows) && Count(Text(rows), '\n') == |rows|
    decreases |rows|
  {
    if |rows| > 0 {
      var n := |rows| - 1;
      TextCounts(rows[..n]);
      LineCounts(rows[n]);
      CountConcat(Text(rows[..n]), Line(rows[n]));
    }
  }

  /** The rows' lengths add up to the length of their concatenation. */
  lemma {:induction false} TotalFlatten(rows: seq<seq<byte>>)
    ensures TotalLength(rows) == |Flatten(rows)|
    decreases |rows|
  {
    if |rows| > 0 {
      var n := |rows| - 1;
      TotalFlatten(rows[..n]);
      FlattenSnoc(rows[..n], rows[n]);
      assert rows[..n] + [rows[n]] == rows;
    }
  }

  lemma {:induction false} FlattenSnoc(rows: seq<seq<byte>>, r: seq<byte>)
    ensures Flatten(rows + [r]) == Flatten(rows) + r
    decreases |rows|
  {
    if |rows| == 0 {
      assert Flatten([r]) == r + Flatten([]);
    } else {
      assert (rows + [r])[1..] == rows[1..] + [r];
      FlattenSnoc(rows[1..], r);
    }
  }

  /**
   * The layout prints one literal per byte and one newline per row of `wrap`
   * bytes, a partial last row counting as a row: ceil(len / wrap) newlines.
   */
  lemma RowsCounts(input: seq<byte>, wrap: nat)
    requires wrap > 0
    ensures Count(Rows(input, wrap), '$') == |input|
    ensures Count(Rows(input, wrap), '\n') == (|input| + wrap - 1) / wrap
  {
    var rows := Split(input, wrap);
    TextCounts(rows);
    TotalFlatten(rows);
    SplitFlatten(input, wrap);
    SplitShape(input, wrap);
  }

  /** One more row of `w` adds one to the row count. */
  lemma CeilStep(r: nat, w: nat)
    requires w > 0
    ensures (r + w + w - 1) / w == (r + w - 1) / w + 1
  {
    var k, m := (r + w - 1) / w, (r + w - 1) % w;
    DivModUnique(r + w - 1, w, k, m);
    assert (k + 1) * w == k * w + w;
    DivModUnique(r + w + w - 1, w, k + 1, m);
  }

  // ----- Proof helpers: string identities the proofs above cite step by step -----

  /** Concatenation regrouped: four pieces. */
  lemma Assoc(a: string, b: string, c: string, d: string)
    ensures a + (b + c + d) == a + b + c + d
  {
  }

  /** Concatenation regrouped: three pieces. */
  lemma Assoc3(a: string, b: string, c: string)
    ensures a + (b + c) == a + b + c
  {
  }

  /** Text appended to the row under construction is appended to the written text. */
  lemma Chain(w1: string, w0: string, r: string, p: string, p1: string, item: string)
    requires w1 == w0 + item && w0 == r + p && p1 == p + item
    ensures w1 == r + p1
  {
    Assoc3(r, p, item);
  }

  /** The newline after the last item of a row closes the row in the written text as in the layout. */
  lemma CloseChain(w0: string, r: string, p: string, p1: string, item: string, r1: string)
    requires w0 == r + p && p1 == p + item && r1 == r + p1 + "\n"
    ensures r1 == w0 + item + "\n"
  {
    Assoc3(r, p, item);
  }

  /** An empty row under construction adds nothing to the written text. */
  lemma EmptyChain(w: string, r: string, p: string)
    requires w == r && p == ""
    ensures w == r + p
  {
  }
}
