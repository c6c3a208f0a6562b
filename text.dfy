/** The operations of Python's str that the search and the obfuscation rely on. */
module Text {

  /** str.isspace() of one character: the characters that `\s` matches in a str
      pattern and that str.rstrip() removes. */
  predicate IsSpace(c: char) {
    var n := c as int;
    n == 0x20 || 0x09 <= n <= 0x0d || 0x1c <= n <= 0x1f || n == 0x85 || n == 0xa0
    || n == 0x1680 || 0x2000 <= n <= 0x200a || n == 0x2028 || n == 0x2029
    || n == 0x202f || n == 0x205f || n == 0x3000
  }

  /** Lower-casing of one character (ASCII letters only). */
  function LowerChar(c: char): char {
    if 'A' <= c <= 'Z' then (c as int + 32) as char else c
  }

  /** str.lower(), restricted to ASCII letters. */
  function Lower(s: string): (r: string)
    ensures |r| == |s|
    ensures forall i :: 0 <= i < |s| ==> r[i] == LowerChar(s[i])
  {
    if s == [] then [] else [LowerChar(s[0])] + Lower(s[1..])
  }

  /** Lower-casing twice is lower-casing once. */
  lemma LowerIdempotent(s: string)
    ensures Lower(Lower(s)) == Lower(s)
  {
    assert forall i :: 0 <= i < |s| ==> Lower(Lower(s))[i] == Lower(s)[i];
  }

  /** str.rstrip() with no argument. */
  function RStrip(s: string): (r: string)
    ensures r <= s
    ensures r == [] || !IsSpace(r[|r| - 1])
    ensures forall i :: |r| <= i < |s| ==> IsSpace(s[i])
  {
    if s == [] || !IsSpace(s[|s| - 1]) then s else RStrip(s[..|s| - 1])
  }

  /** sep.join(parts). */
  function Join(sep: string, parts: seq<string>): string {
    if parts == [] then []
    else if |parts| == 1 then parts[0]
    else parts[0] + sep + Join(sep, parts[1..])
  }

  /** Where part i starts in Join(sep, parts): the lengths of the parts before it,
      each followed by one separator. */
  function Offset(sep: string, parts: seq<string>, i: nat): nat
    requires i <= |parts|
  {
    if i == 0 then 0 else |parts[0]| + |sep| + Offset(sep, parts[1..], i - 1)
  }

  /** A stretch of b read through a + b. */
  lemma SliceAfter(a: string, b: string, lo: nat, hi: nat)
    requires lo <= hi <= |b|
    ensures (a + b)[|a| + lo..|a| + hi] == b[lo..hi]
  {
  }

  /** Join(sep, parts) is the first part, a separator, and the join of the rest. */
  lemma JoinCons(sep: string, parts: seq<string>)
    requires |parts| > 1
    ensures Join(sep, parts) == (parts[0] + sep) + Join(sep, parts[1..])
  {
  }

  /** Join places part i at Offset(i). */
  lemma {:induction false} JoinPartAt(sep: string, parts: seq<string>, i: nat)
    requires i < |parts|
    ensures Offset(sep, parts, i) + |parts[i]| <= |Join(sep, parts)|
    ensures Join(sep, parts)[Offset(sep, parts, i)..Offset(sep, parts, i) + |parts[i]|] == parts[i]
  {
    if |parts| > 1 {
      JoinCons(sep, parts);
      var rest := parts[1..];
      if i == 0 {
        assert Join(sep, parts) == parts[0] + (sep + Join(sep, rest));
      } else {
        JoinPartAt(sep, rest, i - 1);
        var o := Offset(sep, rest, i - 1);
        SliceAfter(parts[0] + sep, Join(sep, rest), o, o + |rest[i - 1]|);
      }
    }
  }

  /** Every part but the last is followed by one separator, and the next part starts
      right after it. */
  lemma {:induction false} JoinSepAt(sep: string, parts: seq<string>, i: nat)
    requires i + 1 < |parts|
    ensures Offset(sep, parts, i + 1) == Offset(sep, parts, i) + |parts[i]| + |sep|
    ensures Offset(sep, parts, i + 1) <= |Join(sep, parts)|
    ensures Join(sep, parts)[Offset(sep, parts, i) + |parts[i]|..Offset(sep, parts, i + 1)] == sep
  {
    JoinCons(sep, parts);
    var rest := parts[1..];
    if i == 0 {
      assert Offset(sep, rest, 0) == 0;
      assert Join(sep, parts)[|parts[0]|..|parts[0]| + |sep|] == (parts[0] + sep)[|parts[0]|..];
    } else {
      JoinSepAt(sep, rest, i - 1);
      var o := Offset(sep, rest, i - 1) + |rest[i - 1]|;
      SliceAfter(parts[0] + sep, Join(sep, rest), o, Offset(sep, rest, i));
    }
  }

  /** The join ends where the last part ends. */
  lemma {:induction false} JoinEnd(sep: string, parts: seq<string>)
    requires parts != []
    ensures Offset(sep, parts, |parts| - 1) + |parts[|parts| - 1]| == |Join(sep, parts)|
  {
    if |parts| > 1 {
      JoinCons(sep, parts);
      JoinEnd(sep, parts[1..]);
    }
  }
}
