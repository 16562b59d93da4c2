/** String helpers shared by the model: Python's `in` on strings, `str.strip()`
    and `str.split(sep)[0]`, stated over Dafny's `string` (a `seq<char>`). */
module Text {

  datatype Option<T> = None | Some(value: T)

  /** `pat` occurs in `s` starting at index `i`. */
  predicate OccursAt(s: string, pat: string, i: nat)
  {
    i + |pat| <= |s| && s[i..i + |pat|] == pat
  }

  /** `p` is a prefix of `s`. */
  predicate IsPrefix(p: string, s: string)
  {
    OccursAt(s, p, 0)
  }

  /** Dropping the first character moves every occurrence one place to the left. */
  lemma OccursAtTail(s: string, pat: string, i: nat)
    requires |s| > 0
    ensures OccursAt(s[1..], pat, i) == OccursAt(s, pat, i + 1)
  {
    if i + 1 + |pat| <= |s| {
      assert s[1..][i..i + |pat|] == s[i + 1..i + 1 + |pat|];
    }
  }

  /** One differing character rules an occurrence out. */
  lemma MismatchAt(s: string, pat: string, i: nat, k: nat)
    requires k < |pat| && i + k < |s| && s[i + k] != pat[k]
    ensures !OccursAt(s, pat, i)
  {
    if i + |pat| <= |s| {
      assert s[i..i + |pat|][k] == s[i + k];
    }
  }

  /** The index of the first occurrence of `pat` in `s`, scanning from the left. */
  function IndexOf(s: string, pat: string): (r: Option<nat>)
    ensures r.Some? ==> OccursAt(s, pat, r.value)
    ensures r.Some? ==> forall i: nat :: i < r.value ==> !OccursAt(s, pat, i)
    ensures r.None? ==> forall i: nat :: !OccursAt(s, pat, i)
    decreases |s|
  {
    if IsPrefix(pat, s) then Some(0)
    else if |s| == 0 then None
    else
      var r := IndexOf(s[1..], pat);
      assert forall i: nat :: OccursAt(s[1..], pat, i) == OccursAt(s, pat, i + 1) by {
        forall i: nat ensures OccursAt(s[1..], pat, i) == OccursAt(s, pat, i + 1) {
          OccursAtTail(s, pat, i);
        }
      }
      assert forall i: nat :: i > 0 ==> OccursAt(s, pat, i) == OccursAt(s[1..], pat, i - 1);
      match r
      case None => None
      case Some(j) => Some(j + 1)
  }

  /** Python's `sub in s`: `sub` occurs somewhere in `s`. */
  predicate Contains(s: string, sub: string): (found: bool)
    ensures found <==> exists i: nat :: OccursAt(s, sub, i)
  {
    IndexOf(s, sub).Some?
  }

  /** A pattern with no occurrence at any index is not contained. */
  lemma NoOccurrenceNotContains(s: string, pat: string)
    requires forall i: nat :: !OccursAt(s, pat, i)
    ensures !Contains(s, pat)
  {
  }

  /** When `pat` occurs nowhere inside `x + pat` before `x` ends, its first
      occurrence is the one appended. */
  lemma FirstOccurrenceAtEnd(x: string, pat: string)
    requires forall i: nat :: i < |x| ==> !OccursAt(x + pat, pat, i)
    ensures IndexOf(x + pat, pat) == Some(|x|)
  {
    assert (x + pat)[|x|..|x| + |pat|] == pat;
    assert OccursAt(x + pat, pat, |x|);
  }

  /** Whether `pat` starts inside `a` does not depend on what follows the
      `pat` placed after `a`. */
  lemma NoEarlierOccurrenceExtends(a: string, pat: string, t: string)
    requires IsPrefix(pat, t)
    requires forall i: nat :: i < |a| ==> !OccursAt(a + pat, pat, i)
    ensures forall i: nat :: i < |a| ==> !OccursAt(a + t, pat, i)
  {
    forall i: nat | i < |a|
      ensures !OccursAt(a + t, pat, i)
    {
      assert !OccursAt(a + pat, pat, i);
      if i + |pat| <= |a + t| {
        assert (a + t)[i..i + |pat|] == (a + pat)[i..i + |pat|];
      }
    }
  }

  /** A text with no occurrence of `pat` loses none by dropping its first character. */
  lemma NotContainsTail(s: string, pat: string)
    requires |s| > 0 && !Contains(s, pat)
    ensures !Contains(s[1..], pat)
  {
    if Contains(s[1..], pat) {
      OccursAtTail(s, pat, IndexOf(s[1..], pat).value);
    }
  }

  /** A text with no occurrence of `pat` has none in any of its suffixes. */
  lemma {:induction false} NotContainsDrop(s: string, pat: string, k: nat)
    requires k <= |s| && !Contains(s, pat)
    ensures !Contains(s[k..], pat)
    decreases k
  {
    if k > 0 {
      NotContainsDrop(s, pat, k - 1);
      assert s[k..] == s[k - 1..][1..];
      NotContainsTail(s[k - 1..], pat);
    }
  }

  /** Appending text after the first occurrence does not move it. */
  lemma {:induction false} IndexOfAppend(s: string, b: string, pat: string)
    requires IndexOf(s, pat).Some?
    ensures IndexOf(s + b, pat) == IndexOf(s, pat)
    decreases |s|
  {
    assert (s + b)[..|pat|] == s[..|pat|] by {
      assert OccursAt(s, pat, IndexOf(s, pat).value);
    }
    if !IsPrefix(pat, s) {
      assert (s + b)[1..] == s[1..] + b;
      IndexOfAppend(s[1..], b, pat);
    }
  }

  /** Cutting the text right after the first occurrence does not move it. */
  lemma {:induction false} IndexOfTake(s: string, pat: string, n: nat)
    requires IndexOf(s, pat).Some? && IndexOf(s, pat).value + |pat| <= n <= |s|
    ensures IndexOf(s[..n], pat) == IndexOf(s, pat)
    decreases |s|
  {
    assert s == s[..n] + s[n..];
    IndexOfAppend(s[..n], s[n..], pat) by {
      assert IndexOf(s[..n], pat).Some? by {
        var i := IndexOf(s, pat).value;
        assert s[..n][i..i + |pat|] == s[i..i + |pat|];
        assert OccursAt(s[..n], pat, i);
      }
    }
  }

  /** The characters Python's `str.isspace()` (and so `str.strip()`) treats as whitespace. */
  predicate IsWhitespace(c: char)
  {
    c == ' ' || ('\t' <= c <= '\r') || ('\U{1C}' <= c <= '\U{1F}') ||
    c == '\U{85}' || c == '\U{A0}' || c == '\U{1680}' || ('\U{2000}' <= c <= '\U{200A}') ||
    c == '\U{2028}' || c == '\U{2029}' || c == '\U{202F}' || c == '\U{205F}' || c == '\U{3000}'
  }

  /** Empty or whitespace only: what Python treats as false after `strip()`. */
  predicate IsBlank(s: string)
  {
    forall i :: 0 <= i < |s| ==> IsWhitespace(s[i])
  }

  /** Python's `str.lstrip()`. */
  function TrimLeft(s: string): string
    decreases |s|
  {
    if |s| > 0 && IsWhitespace(s[0]) then TrimLeft(s[1..]) else s
  }

  /** `lstrip` keeps a suffix of the text, what it drops is all whitespace,
      and what it keeps does not start with whitespace. */
  lemma {:induction false} TrimLeftSplits(s: string)
    ensures |TrimLeft(s)| <= |s| && TrimLeft(s) == s[|s| - |TrimLeft(s)|..]
    ensures IsBlank(s[..|s| - |TrimLeft(s)|])
    ensures TrimLeft(s) == [] || !IsWhitespace(TrimLeft(s)[0])
    decreases |s|
  {
    if |s| > 0 && IsWhitespace(s[0]) {
      TrimLeftSplits(s[1..]);
      var r := TrimLeft(s[1..]);
      assert s[..|s| - |r|] == [s[0]] + s[1..][..|s| - 1 - |r|];
    }
  }

  /** Python's `str.rstrip()`. */
  function TrimRight(s: string): string
    decreases |s|
  {
    if |s| > 0 && IsWhitespace(s[|s| - 1]) then TrimRight(s[..|s| - 1]) else s
  }

  /** `rstrip` keeps a prefix of the text, what it drops is all whitespace,
      and what it keeps does not end with whitespace. */
  lemma {:induction false} TrimRightSplits(s: string)
    ensures |TrimRight(s)| <= |s| && TrimRight(s) == s[..|TrimRight(s)|]
    ensures IsBlank(s[|TrimRight(s)|..])
    ensures TrimRight(s) == [] || !IsWhitespace(TrimRight(s)[|TrimRight(s)| - 1])
    decreases |s|
  {
    if |s| > 0 && IsWhitespace(s[|s| - 1]) {
      var init := s[..|s| - 1];
      TrimRightSplits(init);
      var r := TrimRight(init);
      assert TrimRight(s) == r;
      assert r == s[..|r|] by {
        assert init[..|r|] == s[..|r|];
      }
      assert IsBlank(s[|r|..]) by {
        assert s[|r|..] == init[|r|..] + [s[|s| - 1]];
      }
    }
  }

  /** Python's `str.strip()`. */
  function Strip(s: string): string
  {
    TrimRight(TrimLeft(s))
  }

  /** Stripping leaves nothing exactly when the text is blank: whitespace-only
      input is falsy after `strip()`. */
  lemma StripEmptyIffBlank(s: string)
    ensures Strip(s) == "" <==> IsBlank(s)
  {
    var t := TrimLeft(s);
    TrimLeftSplits(s);
    TrimRightSplits(t);
    assert s == s[..|s| - |t|] + t;
    if Strip(s) == "" {
      assert t[0..] == t;
    }
  }

  /** Python's `s.split(sep)[0]`: the text before the first `sep`, or all of it. */
  function BeforeFirst(s: string, sep: char): (r: string)
    ensures |r| <= |s| && r == s[..|r|]
    ensures sep !in r
    ensures |r| < |s| ==> s[|r|] == sep
    decreases |s|
  {
    if |s| == 0 || s[0] == sep then "" else [s[0]] + BeforeFirst(s[1..], sep)
  }
}
