/**
 * Front-matter removal: the first substitution of `markdown_to_html`.
 *
 * The pattern is `^---\n.*?---\n` with DOTALL and without MULTILINE, so `^` holds only
 * at offset 0 and the lazy `.*?` may span lines: a text that begins with the fence
 * `---\n` loses everything up to and including the next fence, which need not stand at
 * the start of a line.
 */
module FrontMatter {
  import opened Text

  const Fence: string := "---\n"

  predicate FenceAt(s: string, k: nat) {
    k + |Fence| <= |s| && s[k..k + |Fence|] == Fence
  }

  /** The first fence at or after `from`, scanning left to right. */
  function FindFence(s: string, from: nat): (r: Option<nat>)
    ensures r.Some? ==> from <= r.value && FenceAt(s, r.value)
    ensures forall k :: from <= k && (r.None? || k < r.value) ==> !FenceAt(s, k)
    decreases |s| - from
  {
    if from + |Fence| > |s| then None
    else if FenceAt(s, from) then Some(from)
    else FindFence(s, from + 1)
  }

  /** `re.sub(r'^---\n.*?---\n', '', s, flags=re.DOTALL)`: the result is a suffix of
      `s`; a text that does not open with a fence passes through untouched; what is
      removed is one block from offset 0, the opening fence, then text holding no fence,
      then the first later fence. */
  function StripFrontMatter(s: string): (r: string)
    ensures |r| <= |s| && r == s[|s| - |r|..]
    ensures !StartsWith(s, Fence) ==> r == s
    ensures r != s ==> var cut := |s| - |r|;
      |Fence| + |Fence| <= cut && FenceAt(s, 0) && FenceAt(s, cut - |Fence|)
      && forall k :: |Fence| <= k < cut - |Fence| ==> !FenceAt(s, k)
  {
    if StartsWith(s, Fence) then
      match FindFence(s, |Fence|)
      case Some(j) => s[j + |Fence|..]
      case None => s
    else s
  }

  /** The text changes exactly when it opens with a fence and a second fence follows. */
  lemma StripChangesIff(s: string)
    ensures StripFrontMatter(s) != s <==>
      StartsWith(s, Fence) && exists k :: |Fence| <= k && FenceAt(s, k)
  {
    if StartsWith(s, Fence) {
      match FindFence(s, |Fence|)
      case Some(j) =>
        assert |StripFrontMatter(s)| < |s|;
      case None =>
    }
  }

  /** No fence starts inside `body` when the closing fence follows it. */
  predicate NoFenceIn(body: string) {
    forall k :: 0 <= k < |body| ==> !FenceAt(body + Fence, k)
  }

  /** A text opening with a block in whose body no fence starts loses exactly that
      block. */
  lemma StripsLeadingBlock(body: string, rest: string)
    requires NoFenceIn(body)
    ensures StripFrontMatter(Fence + body + Fence + rest) == rest
  {
    var s := Fence + body + Fence + rest;
    var u := body + Fence;
    var j := |Fence| + |body|;
    assert s[..|Fence|] == Fence;
    assert s == Fence + u + rest;
    forall k | |Fence| <= k < j
      ensures !FenceAt(s, k)
    {
      assert !FenceAt(u, k - |Fence|);
      assert s[k..k + |Fence|] == u[k - |Fence|..k];
    }
    assert s[j..j + |Fence|] == Fence;
    FindFenceIs(s, |Fence|, j);
    assert s[j + |Fence|..] == rest;
  }

  /** A body without `-` holds no fence. */
  lemma NoDashNoFence(body: string)
    requires '-' !in body
    ensures NoFenceIn(body)
  {
    forall k | 0 <= k < |body|
      ensures !FenceAt(body + Fence, k)
    {
      assert (body + Fence)[k] == body[k];
    }
  }

  lemma {:induction false} FindFenceIs(s: string, from: nat, j: nat)
    requires from <= j && FenceAt(s, j)
    requires forall k :: from <= k < j ==> !FenceAt(s, k)
    ensures FindFence(s, from) == Some(j)
    decreases j - from
  {
    if from < j {
      FindFenceIs(s, from + 1, j);
    }
  }

  /** Only one block goes per call: two leading front-matter blocks need two calls, so
      the step is not idempotent. */
  lemma NotIdempotent(a: string, b: string, c: string)
    requires '-' !in a && '-' !in b
    ensures var s := Fence + a + Fence + Fence + b + Fence + c;
      StripFrontMatter(s) == Fence + b + Fence + c
      && StripFrontMatter(StripFrontMatter(s)) == c
  {
    var t := Fence + b + Fence + c;
    NoDashNoFence(a);
    NoDashNoFence(b);
    StripsLeadingBlock(a, t);
    assert Fence + a + Fence + t == Fence + a + Fence + Fence + b + Fence + c;
    StripsLeadingBlock(b, c);
  }
}
