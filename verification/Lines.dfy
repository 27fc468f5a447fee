// Text split at LF.
module Lines {
  import opened Bytes

  const LF: byte := 10
  const CR: byte := 13

  /** Length of the first line, its LF included; all of the input when it has no LF. */
  function LineLength(s: bytes): (n: nat)
    ensures n <= |s|
    ensures s != [] ==> n > 0
  {
    if s == [] then 0 else if s[0] == LF then 1 else 1 + LineLength(s[1..])
  }

  predicate EndsLine(s: bytes) {
    s != [] && s[|s| - 1] == LF
  }

  lemma {:induction false} LineShape(s: bytes)
    ensures forall i :: 0 <= i < LineLength(s) - 1 ==> s[i] != LF
    ensures LineLength(s) < |s| ==> s[LineLength(s) - 1] == LF
  {
    if s != [] && s[0] != LF {
      LineShape(s[1..]);
    }
  }

  /** A line that ends in LF is the first line whatever follows it. */
  lemma {:induction false} LineOfConcat(line: bytes, rest: bytes)
    requires EndsLine(line) && forall i :: 0 <= i < |line| - 1 ==> line[i] != LF
    ensures LineLength(line + rest) == |line|
  {
    var s := line + rest;
    if |line| > 1 {
      LineOfConcat(line[1..], rest);
      assert s[1..] == line[1..] + rest;
    }
  }
}
