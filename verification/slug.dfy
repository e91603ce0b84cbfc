/**
  Default slug derivation of the admin forms:
  the lower-cased name with every whitespace run replaced by one '-'.
*/
module Slug {
  import opened Text

  /** The end of the maximal whitespace run that starts at `i`. */
  function RunEnd(s: string, i: nat): (j: nat)
    requires i < |s| && IsSpace(s[i])
    ensures i < j <= |s|
    ensures forall k :: i <= k < j ==> IsSpace(s[k])
    ensures j == |s| || !IsSpace(s[j])
    decreases |s| - i
  {
    if i + 1 < |s| && IsSpace(s[i + 1]) then RunEnd(s, i + 1) else i + 1
  }

  /** The global replacement, scanning from index `i`: each whitespace run becomes one '-'. */
  function CollapseFrom(s: string, i: nat): (r: string)
    requires i <= |s|
    ensures forall k :: 0 <= k < |r| ==> !IsSpace(r[k])
    decreases |s| - i
  {
    if i == |s| then []
    else if IsSpace(s[i]) then "-" + CollapseFrom(s, RunEnd(s, i))
    else [s[i]] + CollapseFrom(s, i + 1)
  }

  /** Global replacement of each maximal whitespace run of `s` by a single '-'. */
  function CollapseSpaces(s: string): string {
    CollapseFrom(s, 0)
  }

  /** The slug a form submits when its slug field is left empty. */
  function DeriveSlug(name: string): (slug: string)
    ensures forall k :: 0 <= k < |slug| ==> !IsSpace(slug[k])
  {
    CollapseSpaces(Lower(name))
  }

  /**
    Reference reading, position by position: a non-space character is copied,
    a space that starts a run emits '-', and a space right after another
    space emits nothing.
  */
  function Emit(s: string, i: nat): string
    requires i < |s|
  {
    if !IsSpace(s[i]) then [s[i]]
    else if i > 0 && IsSpace(s[i - 1]) then []
    else "-"
  }

  /** The concatenation of `Emit(s, k)` for `k` from `i` to the end. */
  function EmitFrom(s: string, i: nat): string
    requires i <= |s|
    decreases |s| - i
  {
    if i == |s| then [] else Emit(s, i) + EmitFrom(s, i + 1)
  }

  /** Spaces inside a run (after its first) emit nothing. */
  lemma {:induction false} EmitSkipsRun(s: string, i: nat, j: nat)
    requires 0 < i <= j <= |s|
    requires forall k :: i - 1 <= k < j ==> IsSpace(s[k])
    ensures EmitFrom(s, i) == EmitFrom(s, j)
    decreases j - i
  {
    if i < j {
      EmitSkipsRun(s, i + 1, j);
    }
  }

  lemma {:induction false} CollapseFromMatchesEmit(s: string, i: nat)
    requires i <= |s|
    requires i < |s| && IsSpace(s[i]) && i > 0 ==> !IsSpace(s[i - 1])
    ensures CollapseFrom(s, i) == EmitFrom(s, i)
    decreases |s| - i
  {
    if i < |s| {
      if IsSpace(s[i]) {
        var j := RunEnd(s, i);
        CollapseFromMatchesEmit(s, j);
        EmitSkipsRun(s, i + 1, j);
      } else {
        CollapseFromMatchesEmit(s, i + 1);
      }
    }
  }

  /**
    The replacement agrees with the position-by-position reading: every
    maximal whitespace run yields exactly one '-', and every other character
    is kept, in order.
  */
  lemma CollapseMatchesReference(s: string)
    ensures CollapseSpaces(s) == EmitFrom(s, 0)
  {
    CollapseFromMatchesEmit(s, 0);
  }

  /** Text without whitespace passes through unchanged. */
  lemma {:induction false} CollapseNoSpaces(s: string, i: nat)
    requires i <= |s|
    requires forall k :: i <= k < |s| ==> !IsSpace(s[k])
    ensures CollapseFrom(s, i) == s[i..]
    decreases |s| - i
  {
    if i < |s| {
      CollapseNoSpaces(s, i + 1);
      assert s[i..] == [s[i]] + s[i + 1..];
    }
  }

  /** Collapsing already collapsed text changes nothing. */
  lemma CollapseIdempotent(s: string)
    ensures CollapseSpaces(CollapseSpaces(s)) == CollapseSpaces(s)
  {
    var once := CollapseSpaces(s);
    CollapseNoSpaces(once, 0);
    assert once[0..] == once;
  }
}
