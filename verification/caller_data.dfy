/**
 * Caller-frame resolution: given a captured stack (innermost frame first)
 * and the facade's own class name, find the frame of the code that called
 * the facade.
 *
 * The scan runs in two passes. The first finds the first frame of the facade
 * class (`selfIndex`, -1 when there is none). The second starts just after it
 * and finds the first frame of any other class (`found`, -1 when there is
 * none). When no facade frame exists the second pass starts at index 0, so
 * the innermost frame is taken as the caller.
 */
module CallerData {
  import opened Wrappers

  /** One element of a stack trace: its declaring class and its method. */
  datatype Frame = Frame(className: string, methodName: string)

  /** Whether a frame belongs to the facade class named `facade`. */
  predicate IsFacade(f: Frame, facade: string) {
    f.className == facade
  }

  /** No frame of `s` belongs to the facade class. */
  predicate FacadeFree(s: seq<Frame>, facade: string) {
    forall j | 0 <= j < |s| :: !IsFacade(s[j], facade)
  }

  /**
   * The first index `k >= from` whose frame is a facade frame exactly when
   * `want` holds, or -1 when there is none.
   */
  function FirstFrom(stack: seq<Frame>, facade: string, want: bool, from: nat): (k: int)
    ensures k == -1 || from <= k < |stack|
    ensures k != -1 ==> IsFacade(stack[k], facade) == want
    ensures forall j | from <= j < |stack| && (k == -1 || j < k) :: IsFacade(stack[j], facade) != want
    decreases |stack| - from
  {
    if from >= |stack| then -1
    else if IsFacade(stack[from], facade) == want then from
    else FirstFrom(stack, facade, want, from + 1)
  }

  /** The first-match characterisation determines `FirstFrom` uniquely. */
  lemma FirstFromUnique(stack: seq<Frame>, facade: string, want: bool, from: nat, k: int)
    requires k == -1 || from <= k < |stack|
    requires k != -1 ==> IsFacade(stack[k], facade) == want
    requires forall j | from <= j < |stack| && (k == -1 || j < k) :: IsFacade(stack[j], facade) != want
    ensures FirstFrom(stack, facade, want, from) == k
  {
  }

  /** Pass one: the smallest index of a facade frame, or -1 if there is none. */
  function SelfIndex(stack: seq<Frame>, facade: string): (selfIndex: int)
    ensures -1 <= selfIndex < |stack|
    ensures selfIndex >= 0 ==> IsFacade(stack[selfIndex], facade)
    ensures forall j | 0 <= j < |stack| && (selfIndex == -1 || j < selfIndex) :: !IsFacade(stack[j], facade)
    ensures selfIndex == -1 <==> FacadeFree(stack, facade)
  {
    FirstFrom(stack, facade, true, 0)
  }

  /**
   * Pass two: the first index after `SelfIndex` whose frame is not a facade
   * frame, or -1 if every later frame is a facade frame.
   */
  function CallerIndex(stack: seq<Frame>, facade: string): (found: int)
    ensures found == -1 || SelfIndex(stack, facade) < found < |stack|
    ensures found >= 0 ==> !IsFacade(stack[found], facade)
    ensures found >= 0 ==> forall j | SelfIndex(stack, facade) < j < found :: IsFacade(stack[j], facade)
    ensures found == -1 <==> forall j | SelfIndex(stack, facade) < j < |stack| :: IsFacade(stack[j], facade)
  {
    FirstFrom(stack, facade, false, SelfIndex(stack, facade) + 1)
  }

  /** The frame attributed as the caller, if any. */
  function ResolveCaller(stack: seq<Frame>, facade: string): (caller: Option<Frame>)
    ensures caller.Some? ==> caller.value in stack[SelfIndex(stack, facade) + 1..] && !IsFacade(caller.value, facade)
    ensures caller.Some? ==>
              exists k | SelfIndex(stack, facade) < k < |stack| ::
                && stack[k] == caller.value
                && forall j | SelfIndex(stack, facade) < j < k :: IsFacade(stack[j], facade)
    ensures caller.None? <==> forall j | SelfIndex(stack, facade) < j < |stack| :: IsFacade(stack[j], facade)
  {
    var found := CallerIndex(stack, facade);
    if found == -1 then None else Some(stack[found])
  }

  /** The two scanning loops, as written, compute `CallerIndex`. */
  method FindCaller(stack: seq<Frame>, facade: string) returns (found: int)
    ensures found == CallerIndex(stack, facade)
    ensures found == -1 || (0 <= found < |stack| && !IsFacade(stack[found], facade))
  {
    var selfIndex := -1;
    var i := 0;
    while i < |stack|
      invariant 0 <= i <= |stack|
      invariant selfIndex == -1
      invariant forall j | 0 <= j < i :: !IsFacade(stack[j], facade)
    {
      if stack[i].className == facade {
        selfIndex := i;
        break;
      }
      i := i + 1;
    }
    FirstFromUnique(stack, facade, true, 0, selfIndex);

    found := -1;
    i := selfIndex + 1;
    while i < |stack|
      invariant selfIndex + 1 <= i <= |stack|
      invariant found == -1
      invariant forall j | selfIndex + 1 <= j < i :: IsFacade(stack[j], facade)
    {
      if stack[i].className != facade {
        found := i;
        break;
      }
      i := i + 1;
    }
    FirstFromUnique(stack, facade, false, selfIndex + 1, found);
  }

  /**
   * The quirk of pass one: with no facade frame at all, a non-empty stack
   * yields its innermost frame as the caller, and an empty one yields none.
   */
  lemma NoFacadeFramePicksInnermost(stack: seq<Frame>, facade: string)
    requires FacadeFree(stack, facade)
    ensures |stack| == 0 ==> CallerIndex(stack, facade) == -1
    ensures |stack| > 0 ==> CallerIndex(stack, facade) == 0 && ResolveCaller(stack, facade) == Some(stack[0])
  {
  }

  /**
   * A run of consecutive facade frames is skipped as a whole: after a
   * facade-free prefix, a non-empty run of facade frames and then a
   * non-facade frame `x`, the caller is `x`.
   */
  lemma SkipsFacadeRun(prefix: seq<Frame>, run: seq<Frame>, x: Frame, rest: seq<Frame>, facade: string)
    requires FacadeFree(prefix, facade)
    requires |run| > 0 && forall j | 0 <= j < |run| :: IsFacade(run[j], facade)
    requires !IsFacade(x, facade)
    ensures CallerIndex(prefix + run + [x] + rest, facade) == |prefix| + |run|
    ensures ResolveCaller(prefix + run + [x] + rest, facade) == Some(x)
  {
    var s := prefix + run + [x] + rest;
    assert forall j | 0 <= j < |prefix| :: s[j] == prefix[j];
    assert forall j | 0 <= j < |run| :: s[|prefix| + j] == run[j];
    assert s[|prefix| + |run|] == x;
    FirstFromUnique(s, facade, true, 0, |prefix|);
    FirstFromUnique(s, facade, false, |prefix| + 1, |prefix| + |run|);
  }

  /**
   * Non-facade frames before the first facade frame never influence the
   * result: prepending them only shifts both indices.
   */
  lemma PrefixIrrelevant(prefix: seq<Frame>, s: seq<Frame>, facade: string)
    requires FacadeFree(prefix, facade)
    requires SelfIndex(s, facade) >= 0
    ensures SelfIndex(prefix + s, facade) == |prefix| + SelfIndex(s, facade)
    ensures CallerIndex(s, facade) == -1 ==> CallerIndex(prefix + s, facade) == -1
    ensures CallerIndex(s, facade) >= 0 ==> CallerIndex(prefix + s, facade) == |prefix| + CallerIndex(s, facade)
    ensures ResolveCaller(prefix + s, facade) == ResolveCaller(s, facade)
  {
    var t := prefix + s;
    var si := SelfIndex(s, facade);
    var ci := CallerIndex(s, facade);
    assert forall j | 0 <= j < |prefix| :: t[j] == prefix[j];
    assert forall j | 0 <= j < |s| :: t[|prefix| + j] == s[j];
    FirstFromUnique(t, facade, true, 0, |prefix| + si);
    if ci == -1 {
      FirstFromUnique(t, facade, false, |prefix| + si + 1, -1);
    } else {
      FirstFromUnique(t, facade, false, |prefix| + si + 1, |prefix| + ci);
    }
  }

  /** Any two facade-free prefixes lead to the same resolved caller. */
  lemma PrefixChoiceIrrelevant(p: seq<Frame>, q: seq<Frame>, s: seq<Frame>, facade: string)
    requires FacadeFree(p, facade) && FacadeFree(q, facade)
    requires SelfIndex(s, facade) >= 0
    ensures ResolveCaller(p + s, facade) == ResolveCaller(q + s, facade)
  {
    PrefixIrrelevant(p, s, facade);
    PrefixIrrelevant(q, s, facade);
  }
}
