/**
 * The string operations the classifier and the report builder rely on:
 * ASCII versions of Python's `str.lower` and `str.capitalize`, the
 * substring test `p in s`, and `sep.join(parts)`.
 */
module Text {

  predicate IsUpper(c: char) { 'A' <= c <= 'Z' }

  predicate IsLower(c: char) { 'a' <= c <= 'z' }

  function LowerChar(c: char): (d: char)
    ensures !IsUpper(d)
    ensures IsUpper(c) ==> IsLower(d) && d as int == c as int + 32
    ensures !IsUpper(c) ==> d == c
  {
    if IsUpper(c) then (c as int + 32) as char else c
  }

  function UpperChar(c: char): (d: char)
    ensures !IsLower(d)
    ensures IsLower(c) ==> IsUpper(d) && d as int == c as int - 32
    ensures !IsLower(c) ==> d == c
  {
    if IsLower(c) then (c as int - 32) as char else c
  }

  /**
   * `s.lower()` over ASCII: each upper-case letter becomes its lower-case
   * letter, every other character is kept.
   */
  function Lower(s: string): (r: string)
    ensures |r| == |s|
    ensures forall i :: 0 <= i < |r| ==> !IsUpper(r[i])
    ensures forall i :: 0 <= i < |s| && IsUpper(s[i]) ==> r[i] as int == s[i] as int + 32
    ensures forall i :: 0 <= i < |r| && !IsUpper(s[i]) ==> r[i] == s[i]
  {
    seq(|s|, i requires 0 <= i < |s| => LowerChar(s[i]))
  }

  /** `s.capitalize()` over ASCII: first character upper-cased, the rest lower-cased. */
  function Capitalize(s: string): (r: string)
    ensures |r| == |s|
    ensures |r| > 0 ==> !IsLower(r[0])
    ensures |s| > 0 && IsLower(s[0]) ==> r[0] as int == s[0] as int - 32
    ensures |s| > 0 && !IsLower(s[0]) ==> r[0] == s[0]
    ensures forall i :: 1 <= i < |r| ==> !IsUpper(r[i])
    ensures forall i :: 1 <= i < |s| ==> r[i] == Lower(s)[i]
  {
    if |s| == 0 then "" else [UpperChar(s[0])] + Lower(s[1..])
  }

  /** Lower-casing twice is lower-casing once. */
  lemma LowerIdempotent(s: string)
    ensures Lower(Lower(s)) == Lower(s)
  {
  }

  /** Capitalizing only changes letter case. */
  lemma LowerOfCapitalize(s: string)
    ensures Lower(Capitalize(s)) == Lower(s)
  {
    if |s| > 0 {
      var c := Capitalize(s);
      forall i | 0 <= i < |s|
        ensures Lower(c)[i] == Lower(s)[i]
      {
        if i > 0 {
          assert c[i] == Lower(s[1..])[i - 1] == LowerChar(s[i]);
        }
      }
    }
  }

  /** `p` occurs in `s` at offset `i`. */
  predicate OccursAt(s: string, p: string, i: int)
  {
    0 <= i && i + |p| <= |s| && s[i..i + |p|] == p
  }

  /** Python's `p in s` for strings: a substring test, true for the empty pattern. */
  predicate Contains(s: string, p: string)
  {
    exists i :: 0 <= i <= |s| - |p| && OccursAt(s, p, i)
  }

  /** A pattern found in a lower-cased string contains no upper-case letter. */
  lemma ContainsInLowerHasNoUpper(s: string, p: string)
    requires Contains(Lower(s), p)
    ensures forall j :: 0 <= j < |p| ==> !IsUpper(p[j])
  {
    var t := Lower(s);
    var i :| 0 <= i <= |t| - |p| && OccursAt(t, p, i);
    assert t[i..i + |p|] == p;
    forall j | 0 <= j < |p|
      ensures !IsUpper(p[j])
    {
      assert p[j] == t[i..i + |p|][j] == t[i + j];
    }
  }

  /** `sep.join(parts)`. */
  function Join(sep: string, parts: seq<string>): string
    decreases |parts|
  {
    if |parts| == 0 then ""
    else if |parts| == 1 then parts[0]
    else Join(sep, parts[..|parts| - 1]) + sep + parts[|parts| - 1]
  }

  /** With a non-empty separator, a join is empty exactly when there is no part, or one empty part. */
  lemma JoinEmptyIff(sep: string, parts: seq<string>)
    requires sep != ""
    ensures Join(sep, parts) == "" <==> parts == [] || parts == [""]
  {
    if |parts| == 1 {
      assert parts == [parts[0]];
    } else if |parts| > 1 {
      assert |Join(sep, parts)| >= |sep|;
    }
  }

  /** A single part is joined to itself, with no separator. */
  lemma JoinOne(sep: string, x: string)
    ensures Join(sep, [x]) == x
  {
  }

  /** The first part starts the join and the last part ends it. */
  lemma {:induction false} JoinEnds(sep: string, parts: seq<string>)
    requires |parts| > 0
    ensures parts[0] <= Join(sep, parts)
    ensures var r, z := Join(sep, parts), parts[|parts| - 1]; |z| <= |r| && r[|r| - |z|..] == z
    decreases |parts|
  {
    if |parts| > 1 {
      JoinEnds(sep, parts[..|parts| - 1]);
    }
  }

  /** Joining a concatenation puts one separator between the two joins. */
  lemma {:induction false} JoinConcat(sep: string, a: seq<string>, b: seq<string>)
    requires |a| > 0 && |b| > 0
    ensures Join(sep, a + b) == Join(sep, a) + sep + Join(sep, b)
    decreases |b|
  {
    if |b| == 1 {
      assert (a + b)[..|a + b| - 1] == a;
    } else {
      var b' := b[..|b| - 1];
      var last := b[|b| - 1];
      assert (a + b)[..|a + b| - 1] == a + b';
      assert (a + b)[|a + b| - 1] == last;
      JoinConcat(sep, a, b');
      calc {
        Join(sep, a + b);
        Join(sep, a + b') + sep + last;
        (Join(sep, a) + sep + Join(sep, b')) + sep + last;
        Join(sep, a) + sep + (Join(sep, b') + sep + last);
        Join(sep, a) + sep + Join(sep, b);
      }
    }
  }
}
