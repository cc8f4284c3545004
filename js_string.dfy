/**
 * The part of JavaScript's `String.prototype.replace` that the lease code uses:
 * a string (not a regular expression) pattern, so only the FIRST occurrence is
 * replaced, and the replacement is a template whose `$$`, `$&`, `` $` `` and `$'`
 * sequences are expanded (section 22.1.3.19.1, GetSubstitution, of ECMA-262).
 * With a string pattern there are no capture groups, so `$1` or `$<name>` stay literal.
 */
module JsString {
  import opened Wrappers

  /** `p` occurs in `s` starting at index `i`. */
  predicate OccursAt(s: string, p: string, i: int) {
    0 <= i && i + |p| <= |s| && s[i..i + |p|] == p
  }

  /** `p` occurs somewhere in `s`. */
  ghost predicate OccursIn(s: string, p: string) {
    exists i :: OccursAt(s, p, i)
  }

  /** The first index at or after `from` where `p` occurs in `s`, as `indexOf` finds it. */
  function IndexOfFrom(s: string, p: string, from: nat): (r: Option<nat>)
    ensures r.Some? ==> from <= r.value && OccursAt(s, p, r.value)
    ensures r.Some? ==> forall j :: from <= j < r.value ==> !OccursAt(s, p, j)
    ensures r.None? ==> forall j :: from <= j ==> !OccursAt(s, p, j)
    decreases |s| - from
  {
    if |s| < from + |p| then None
    else if s[from..from + |p|] == p then Some(from)
    else IndexOfFrom(s, p, from + 1)
  }

  /** The first occurrence of `p` in `s`; the empty pattern is found at index 0. */
  function IndexOf(s: string, p: string): (r: Option<nat>)
    ensures r.Some? <==> OccursIn(s, p)
    ensures r.Some? ==> OccursAt(s, p, r.value) && forall j :: 0 <= j < r.value ==> !OccursAt(s, p, j)
  {
    IndexOfFrom(s, p, 0)
  }

  /** An occurrence with no earlier one is what `IndexOf` returns. */
  lemma FirstOccurrence(s: string, p: string, i: nat)
    requires OccursAt(s, p, i)
    requires forall j :: 0 <= j < i ==> !OccursAt(s, p, j)
    ensures IndexOf(s, p) == Some(i)
  {
    assert OccursIn(s, p);
  }

  /**
   * If the first occurrence of `p` is at `i` and a longer `q` starting with `p` occurs
   * there too, then `q` is also first found at `i`.
   */
  lemma FirstOccurrenceExtends(s: string, p: string, q: string)
    requires IndexOf(s, p).Some?
    requires |p| <= |q| && q[..|p|] == p
    requires OccursAt(s, q, IndexOf(s, p).value)
    ensures IndexOf(s, q) == IndexOf(s, p)
  {
    var i := IndexOf(s, p).value;
    forall j | 0 <= j < i ensures !OccursAt(s, q, j) {
      if OccursAt(s, q, j) {
        assert s[j..j + |p|] == s[j..j + |q|][..|p|];
        assert OccursAt(s, p, j);
      }
    }
    FirstOccurrence(s, q, i);
  }

  /**
   * Expansion of a replacement template for a match of `matched` at `position` in
   * `str`: `$$` gives `$`, `$&` the matched text, `` $` `` the text before the
   * match, `$'` the text after it; every other character is copied.
   */
  function Substitute(template: string, matched: string, str: string, position: nat): string
    requires position + |matched| <= |str|
    decreases |template|
  {
    if |template| == 0 then ""
    else if template[0] == '$' && |template| >= 2 && template[1] == '$' then
      "$" + Substitute(template[2..], matched, str, position)
    else if template[0] == '$' && |template| >= 2 && template[1] == '&' then
      matched + Substitute(template[2..], matched, str, position)
    else if template[0] == '$' && |template| >= 2 && template[1] == '`' then
      str[..position] + Substitute(template[2..], matched, str, position)
    else if template[0] == '$' && |template| >= 2 && template[1] == '\'' then
      str[position + |matched|..] + Substitute(template[2..], matched, str, position)
    else
      [template[0]] + Substitute(template[1..], matched, str, position)
  }

  /**
   * The four replacement patterns of GetSubstitution: `$$` is a dollar sign, `$&` the
   * matched text, `` $` `` the text before the match and `$'` the text after it. A `$`
   * followed by anything else, a digit included, is kept literally.
   */
  lemma SubstitutionPatterns(rest: string, matched: string, str: string, position: nat, c: char)
    requires position + |matched| <= |str|
    ensures Substitute("$$" + rest, matched, str, position) == "$" + Substitute(rest, matched, str, position)
    ensures Substitute("$&" + rest, matched, str, position) == matched + Substitute(rest, matched, str, position)
    ensures Substitute("$`" + rest, matched, str, position) == str[..position] + Substitute(rest, matched, str, position)
    ensures Substitute("$'" + rest, matched, str, position)
      == str[position + |matched|..] + Substitute(rest, matched, str, position)
    ensures !IsPatternChar(c) ==>
      Substitute(['$', c] + rest, matched, str, position) == "$" + Substitute([c] + rest, matched, str, position)
  {
    var dollar, amp, before, after := "$$" + rest, "$&" + rest, "$`" + rest, "$'" + rest;
    assert dollar[0] == '$' && dollar[1] == '$' && dollar[2..] == rest;
    assert amp[0] == '$' && amp[1] == '&' && amp[2..] == rest;
    assert before[0] == '$' && before[1] == '`' && before[2..] == rest;
    assert after[0] == '$' && after[1] == '\'' && after[2..] == rest;
    var other := ['$', c] + rest;
    assert other[0] == '$' && other[1] == c && other[1..] == [c] + rest;
  }

  /** The characters that give a following `$` a special meaning in a template. */
  predicate IsPatternChar(c: char) {
    c == '$' || c == '&' || c == '`' || c == '\''
  }

  /** `template` holds none of `$$`, `$&`, `` $` ``, `$'`. */
  predicate NoReplacementPatterns(template: string) {
    forall i :: 0 <= i < |template| - 1 && template[i] == '$' ==> !IsPatternChar(template[i + 1])
  }

  /** A template without replacement patterns is inserted literally. */
  lemma {:induction false} LiteralSubstitution(template: string, matched: string, str: string, position: nat)
    requires position + |matched| <= |str|
    requires NoReplacementPatterns(template)
    ensures Substitute(template, matched, str, position) == template
  {
    if |template| > 0 {
      assert NoReplacementPatterns(template[1..]) by {
        forall i | 0 <= i < |template[1..]| - 1 && template[1..][i] == '$'
          ensures !IsPatternChar(template[1..][i + 1])
        {
          assert template[i + 1] == '$';
        }
      }
      LiteralSubstitution(template[1..], matched, str, position);
    }
  }

  /** `s.replace(p, template)` for a string pattern `p`. */
  function ReplaceFirst(s: string, p: string, template: string): (r: string)
    ensures IndexOf(s, p).None? ==> r == s
  {
    match IndexOf(s, p)
    case None => s
    case Some(i) => s[..i] + Substitute(template, p, s, i) + s[i + |p|..]
  }

  /** When `p` does not occur, the text is returned unchanged. */
  lemma ReplaceAbsent(s: string, p: string, template: string)
    requires !OccursIn(s, p)
    ensures ReplaceFirst(s, p, template) == s
  {
  }

  /** The empty pattern matches at index 0: the replacement is inserted in front. */
  lemma EmptyPatternInsertsAtStart(s: string, template: string)
    ensures NoReplacementPatterns(template) ==> ReplaceFirst(s, "", template) == template + s
  {
    assert OccursAt(s, "", 0);
    if NoReplacementPatterns(template) {
      LiteralSubstitution(template, "", s, 0);
    }
  }

  /** Two texts that agree up to the end of the first occurrence of `p` in one have the same first occurrence. */
  lemma SamePrefixSameFirst(s: string, r: string, p: string)
    requires IndexOf(s, p).Some?
    requires IndexOf(s, p).value + |p| <= |r|
    requires r[..IndexOf(s, p).value + |p|] == s[..IndexOf(s, p).value + |p|]
    ensures IndexOf(r, p) == IndexOf(s, p)
  {
    var i := IndexOf(s, p).value;
    var n := i + |p|;
    forall j | 0 <= j <= i
      ensures OccursAt(r, p, j) <==> OccursAt(s, p, j)
    {
      SliceOfPrefix(r, n, j, j + |p|);
      SliceOfPrefix(s, n, j, j + |p|);
    }
    FirstOccurrence(r, p, i);
  }

  /** Helper: a slice inside a prefix is the slice of the whole. */
  lemma SliceOfPrefix(s: string, n: nat, a: nat, b: nat)
    requires a <= b <= n <= |s|
    ensures s[..n][a..b] == s[a..b]
  {
  }

  /** Helper: putting `p + rest` where `p` occurs keeps the text up to the end of that occurrence. */
  lemma SpliceKeepsPrefix(s: string, p: string, i: nat, rest: string)
    requires OccursAt(s, p, i)
    ensures (s[..i] + p + rest)[..i + |p|] == s[..i + |p|]
  {
    assert s[..i + |p|] == s[..i] + s[i..i + |p|];
  }

  /** Helper: where `p` is first found at `i`, the literal replacement splices the template in at `i`. */
  lemma ReplaceAt(s: string, p: string, template: string, i: nat)
    requires IndexOf(s, p) == Some(i)
    requires NoReplacementPatterns(template)
    ensures ReplaceFirst(s, p, template) == s[..i] + template + s[i + |p|..]
  {
    LiteralSubstitution(template, p, s, i);
  }

  /**
   * Replacing `p` by `p + " " + v` keeps `p` where it was and appends the new text after it;
   * the first occurrence of `p` in the result is still at the same index.
   */
  lemma ReplaceKeepsPattern(s: string, p: string, v: string)
    requires OccursIn(s, p)
    requires NoReplacementPatterns(p + " " + v)
    ensures var i := IndexOf(s, p).value;
      var r := ReplaceFirst(s, p, p + " " + v);
      && r == s[..i] + p + " " + v + s[i + |p|..]
      && |r| == |s| + 1 + |v|
      && IndexOf(r, p) == Some(i)
  {
    var i := IndexOf(s, p).value;
    var rest := " " + v + s[i + |p|..];
    ReplaceAt(s, p, p + " " + v, i);
    var r := ReplaceFirst(s, p, p + " " + v);
    assert r == s[..i] + p + rest;
    SpliceKeepsPrefix(s, p, i, rest);
    SamePrefixSameFirst(s, r, p);
  }
}
