/** String helpers shared by the chat commands: lower-casing, the .NET notion of
    white space, and joining a list of strings with a separator. */
module Text {

  /** `char.ToLower` restricted to ASCII: upper-case Latin letters map to lower
      case, every other character is left alone. */
  function LowerChar(c: char): char
  {
    if 'A' <= c <= 'Z' then (c as int + 32) as char else c
  }

  /** `string.ToLower()`, character by character. */
  function Lower(s: string): (r: string)
    ensures |r| == |s|
    ensures forall i :: 0 <= i < |s| ==> r[i] == LowerChar(s[i])
  {
    if s == [] then [] else [LowerChar(s[0])] + Lower(s[1..])
  }

  predicate IsLowerCase(s: string)
  {
    forall i :: 0 <= i < |s| ==> !('A' <= s[i] <= 'Z')
  }

  /** Lower-casing yields a string without upper-case letters, and leaves such
      a string as it is: lower-casing twice is lower-casing once. */
  lemma LowerIsLowerCase(s: string)
    ensures IsLowerCase(Lower(s))
    ensures IsLowerCase(s) ==> Lower(s) == s
    ensures Lower(Lower(s)) == Lower(s)
  {
    var l := Lower(s);
    assert forall i :: 0 <= i < |l| ==> Lower(l)[i] == l[i];
  }

  /** The characters `char.IsWhiteSpace` accepts: the Unicode space
      separators, line and paragraph separators, and U+0009..U+000D, U+0085. */
  predicate IsWhiteSpace(c: char)
  {
    || ('\t' <= c <= '\r')
    || c == ' '
    || c == '\U{85}'
    || c == '\U{A0}'
    || c == '\U{1680}'
    || ('\U{2000}' <= c <= '\U{200A}')
    || c == '\U{2028}'
    || c == '\U{2029}'
    || c == '\U{202F}'
    || c == '\U{205F}'
    || c == '\U{3000}'
  }

  /** `string.IsNullOrWhiteSpace` for a non-null string: empty, or white
      space from the first character to the last. */
  predicate IsBlank(s: string): (b: bool)
    ensures s == [] ==> b
    ensures s != [] ==> (b <==> IsWhiteSpace(s[0]) && IsBlank(s[1..]))
  {
    forall i :: 0 <= i < |s| ==> IsWhiteSpace(s[i])
  }

  /** The elements of `parts` separated by `sep`, built as the left fold
      `Aggregate((a, b) => a + sep + b)` builds it. The result starts with
      the first part and has the parts' summed length plus one separator
      between each two neighbours; `JoinIsRightFold` gives its content. */
  function Join(parts: seq<string>, sep: string): (r: string)
    requires |parts| > 0
    ensures parts[0] <= r
    ensures |r| == TotalLength(parts) + (|parts| - 1) * |sep|
    decreases |parts|
  {
    if |parts| == 1 then parts[0]
    else
      var init, last := parts[..|parts| - 1], parts[|parts| - 1];
      assert init[0] == parts[0];
      TotalLengthSnoc(init, last);
      assert init + [last] == parts;
      Join(init, sep) + sep + last
  }

  /** Every part preceded by `sep`, concatenated from the left: the
      independent right-fold reading of a separated list. */
  function SepConcat(parts: seq<string>, sep: string): string
  {
    if parts == [] then "" else sep + parts[0] + SepConcat(parts[1..], sep)
  }

  lemma {:induction false} SepConcatSnoc(parts: seq<string>, x: string, sep: string)
    ensures SepConcat(parts + [x], sep) == SepConcat(parts, sep) + sep + x
  {
    if parts != [] {
      assert (parts + [x])[1..] == parts[1..] + [x];
      SepConcatSnoc(parts[1..], x, sep);
    }
  }

  /** The left fold and the right fold agree: joining gives the first part
      followed by `sep + part` for every further part, in order. */
  lemma {:induction false} JoinIsRightFold(parts: seq<string>, sep: string)
    requires |parts| > 0
    ensures Join(parts, sep) == parts[0] + SepConcat(parts[1..], sep)
  {
    if |parts| > 1 {
      var init, last := parts[..|parts| - 1], parts[|parts| - 1];
      JoinIsRightFold(init, sep);
      assert init[1..] + [last] == parts[1..];
      SepConcatSnoc(init[1..], last, sep);
    }
  }

  /** `w` appears in `s` starting at position `k`. */
  predicate OccursAt(w: string, s: string, k: int)
  {
    0 <= k <= |s| - |w| && s[k..k + |w|] == w
  }

  /** `w` appears in `s` as a contiguous piece. */
  predicate Occurs(w: string, s: string)
  {
    exists k :: 0 <= k <= |s| && OccursAt(w, s, k)
  }

  lemma OccursSelf(w: string)
    ensures Occurs(w, w)
  {
    assert OccursAt(w, w, 0);
  }

  /** A piece of `a` stays a piece when text is appended. */
  lemma OccursPrefix(w: string, a: string, b: string)
    requires Occurs(w, a)
    ensures Occurs(w, a + b)
  {
    var k :| 0 <= k <= |a| && OccursAt(w, a, k);
    assert (a + b)[k..k + |w|] == a[k..k + |w|];
    assert OccursAt(w, a + b, k);
  }

  /** A piece of `b` stays a piece when text is prepended. */
  lemma OccursSuffix(w: string, a: string, b: string)
    requires Occurs(w, b)
    ensures Occurs(w, a + b)
  {
    var k :| 0 <= k <= |b| && OccursAt(w, b, k);
    assert (a + b)[|a| + k..|a| + k + |w|] == b[k..k + |w|];
    assert OccursAt(w, a + b, |a| + k);
  }

  /** A piece of a piece is a piece. */
  lemma OccursTrans(u: string, w: string, s: string)
    requires Occurs(u, w) && Occurs(w, s)
    ensures Occurs(u, s)
  {
    var k :| 0 <= k <= |w| && OccursAt(u, w, k);
    var m :| 0 <= m <= |s| && OccursAt(w, s, m);
    var piece := s[m..m + |w|];
    assert piece == w;
    var inner, outer := piece[k..k + |u|], s[m + k..m + k + |u|];
    forall i | 0 <= i < |u|
      ensures outer[i] == inner[i]
    {
      assert piece[k + i] == s[m + k + i];
    }
    assert outer == inner;
    assert OccursAt(u, s, m + k);
  }

  /** Every part appears in the joined string. */
  lemma {:induction false} JoinContainsParts(parts: seq<string>, sep: string)
    requires |parts| > 0
    ensures forall j :: 0 <= j < |parts| ==> Occurs(parts[j], Join(parts, sep))
  {
    if |parts| == 1 {
      OccursSelf(parts[0]);
    } else {
      var init, last := parts[..|parts| - 1], parts[|parts| - 1];
      var front := Join(init, sep) + sep;
      assert Join(parts, sep) == front + last;
      JoinContainsParts(init, sep);
      forall j | 0 <= j < |parts|
        ensures Occurs(parts[j], front + last)
      {
        if j < |init| {
          assert parts[j] == init[j];
          OccursPrefix(parts[j], Join(init, sep), sep);
          OccursPrefix(parts[j], front, last);
        } else {
          OccursSelf(last);
          OccursSuffix(last, front, last);
        }
      }
    }
  }

  /** The number of characters in all of `parts`. */
  function TotalLength(parts: seq<string>): nat
  {
    if parts == [] then 0 else |parts[0]| + TotalLength(parts[1..])
  }

  lemma {:induction false} TotalLengthSnoc(parts: seq<string>, x: string)
    ensures TotalLength(parts + [x]) == TotalLength(parts) + |x|
  {
    if parts != [] {
      assert (parts + [x])[1..] == parts[1..] + [x];
      TotalLengthSnoc(parts[1..], x);
    }
  }
}
