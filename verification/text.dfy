/**
 * The string utilities the core relies on: Go's `strings.Split(s, "\n")`,
 * `strings.Join(lines, "\n")` and `fmt`'s `%d` for non-negative integers.
 */
module Text {

  /** `strings.Split(s, "\n")`: the pieces between newlines; never empty. */
  function Split(s: string): (lines: seq<string>)
    ensures |lines| >= 1
    decreases |s|
  {
    if s == [] then [""]
    else if s[0] == '\n' then [""] + Split(s[1..])
    else
      var rest := Split(s[1..]);
      [[s[0]] + rest[0]] + rest[1..]
  }

  /** `strings.Join(lines, "\n")`. */
  function Join(lines: seq<string>): string
  {
    if lines == [] then ""
    else if |lines| == 1 then lines[0]
    else lines[0] + "\n" + Join(lines[1..])
  }

  /** No line produced by Split holds a newline. */
  lemma {:induction false} SplitLinesHaveNoNewline(s: string)
    ensures forall l <- Split(s) :: '\n' !in l
    decreases |s|
  {
    if s != [] {
      SplitLinesHaveNoNewline(s[1..]);
    }
  }

  /** A string without a newline is a single line. */
  lemma {:induction false} SplitSingleLine(s: string)
    requires '\n' !in s
    ensures Split(s) == [s]
    decreases |s|
  {
    if s != [] {
      assert s[0] in s;
      SplitSingleLine(s[1..]);
      assert [s[0]] + s[1..] == s;
    }
  }

  /** Splitting distributes over a newline. */
  lemma {:induction false} SplitAroundNewline(a: string, b: string)
    ensures Split(a + "\n" + b) == Split(a) + Split(b)
    decreases |a|
  {
    if a == [] {
      assert a + "\n" + b == "\n" + b;
      assert ("\n" + b)[1..] == b;
    } else {
      assert (a + "\n" + b)[0] == a[0];
      assert (a + "\n" + b)[1..] == a[1..] + "\n" + b;
      SplitAroundNewline(a[1..], b);
    }
  }

  /** Join undoes Split. */
  lemma {:induction false} JoinSplit(s: string)
    ensures Join(Split(s)) == s
    decreases |s|
  {
    if s != [] {
      JoinSplit(s[1..]);
      var rest := Split(s[1..]);
      if s[0] == '\n' {
        assert Split(s) == [""] + rest;
        if |rest| == 1 {
          assert Join(Split(s)) == "" + "\n" + rest[0];
        } else {
          assert Join(Split(s)) == "" + "\n" + Join(rest);
        }
        assert s == [s[0]] + s[1..];
      } else {
        var head := [[s[0]] + rest[0]] + rest[1..];
        assert Split(s) == head;
        if |rest| == 1 {
          assert Join(head) == [s[0]] + rest[0];
          assert Join(rest) == rest[0];
        } else {
          assert Join(head) == [s[0]] + rest[0] + "\n" + Join(rest[1..]);
          assert Join(rest) == rest[0] + "\n" + Join(rest[1..]);
        }
        assert s == [s[0]] + s[1..];
      }
    }
  }

  /** Split undoes Join when no joined line holds a newline. */
  lemma {:induction false} SplitJoin(lines: seq<string>)
    requires |lines| >= 1
    requires forall l <- lines :: '\n' !in l
    ensures Split(Join(lines)) == lines
    decreases |lines|
  {
    if |lines| == 1 {
      SplitSingleLine(lines[0]);
    } else {
      SplitJoin(lines[1..]);
      SplitSingleLine(lines[0]);
      SplitAroundNewline(lines[0], Join(lines[1..]));
    }
  }

  /** The lines of every string in `blocks`, one after the other. */
  function Concat(blocks: seq<seq<string>>): seq<string>
  {
    if blocks == [] then [] else blocks[0] + Concat(blocks[1..])
  }

  /** Splitting a newline-joined list of blocks yields each block's own lines, in order. */
  lemma {:induction false} SplitJoinBlocks(blocks: seq<string>)
    requires |blocks| >= 1
    ensures Split(Join(blocks)) == Concat(seq(|blocks|, i requires 0 <= i < |blocks| => Split(blocks[i])))
    decreases |blocks|
  {
    var parts := seq(|blocks|, i requires 0 <= i < |blocks| => Split(blocks[i]));
    if |blocks| == 1 {
      assert Concat(parts) == parts[0] + Concat([]);
    } else {
      var tail := blocks[1..];
      SplitJoinBlocks(tail);
      SplitAroundNewline(blocks[0], Join(tail));
      assert parts[1..] == seq(|tail|, i requires 0 <= i < |tail| => Split(tail[i]));
    }
  }

  // ---- decimal rendering (`%d`) and its inverse ----

  function DigitChar(d: nat): char
    requires d < 10
  {
    "0123456789"[d]
  }

  predicate IsDigit(c: char) { '0' <= c <= '9' }

  function DigitValue(c: char): nat
    requires IsDigit(c)
  {
    (c as int) - ('0' as int)
  }

  /** `fmt.Sprintf("%d", n)` for a non-negative n: digits only, no leading zero. */
  function DecimalString(n: nat): (s: string)
    ensures |s| >= 1 && forall c <- s :: IsDigit(c)
    ensures s[0] == '0' ==> n == 0 && s == "0"
    decreases n
  {
    if n < 10 then [DigitChar(n)] else DecimalString(n / 10) + [DigitChar(n % 10)]
  }

  /** Reads back a run of decimal digits. */
  function ParseDecimal(s: string): nat
    requires forall c <- s :: IsDigit(c)
    decreases |s|
  {
    if s == [] then 0 else 10 * ParseDecimal(s[..|s| - 1]) + DigitValue(s[|s| - 1])
  }

  /** `%d` is read back unchanged. */
  lemma {:induction false} DecimalRoundTrip(n: nat)
    ensures ParseDecimal(DecimalString(n)) == n
    decreases n
  {
    var s := DecimalString(n);
    if n < 10 {
      assert s[..|s| - 1] == [];
    } else {
      DecimalRoundTrip(n / 10);
      assert s[..|s| - 1] == DecimalString(n / 10);
    }
  }
}
