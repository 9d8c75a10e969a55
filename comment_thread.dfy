/** The comment thread owned by one rendered post: the list of comment texts,
    the draft in the new-comment textarea, and the custom validity message
    attached to that textarea. Every handler of the component is a pure
    transition on a `Thread` value; the class in post.dfy applies them in place. */
module CommentThread {

  /** The comment every thread is seeded with. */
  const WelcomeComment: string := "Bem vindo"

  /** The custom validity message set when the browser reports the empty
      required textarea as invalid. */
  const RequiredMessage: string := "Campo obrigatorio teste"

  datatype Thread = Thread(comments: seq<string>, draft: string, validityMessage: string)

  /** The state right after the component mounts: the welcome comment alone,
      an empty draft and no message. */
  function Initial(): (t: Thread)
    ensures |t.comments| == 1 && WelcomeComment in t.comments
    ensures IsNewCommentEmpty(t) && t.validityMessage == ""
  {
    Thread([WelcomeComment], "", "")
  }

  /** The derived flag that disables the "Publicar" button. */
  predicate IsNewCommentEmpty(t: Thread)
    ensures IsNewCommentEmpty(t) <==> t.draft == ""
  {
    |t.draft| == 0
  }

  // ---------------------------------------------------------------------------
  // Value-based deletion

  /** `r` is obtained from `s` by dropping some elements and keeping the order
      of the others. */
  predicate IsSubsequence(r: seq<string>, s: seq<string>)
    decreases |s|
  {
    if r == [] then true
    else if s == [] then false
    else if r[0] == s[0] then IsSubsequence(r[1..], s[1..])
    else IsSubsequence(r, s[1..])
  }

  /** The filter of deleteComment: every comment equal to `target` is dropped. */
  function Without(s: seq<string>, target: string): (r: seq<string>)
    ensures forall x :: x in r <==> x in s && x != target
    ensures multiset(r) == multiset(s)[target := 0]
    ensures |r| == |s| - multiset(s)[target]
    ensures IsSubsequence(r, s)
  {
    if s == [] then []
    else
      assert s == [s[0]] + s[1..];
      var rest := Without(s[1..], target);
      if s[0] == target then
        assert rest != [] ==> rest[0] in rest;
        rest
      else [s[0]] + rest
  }

  lemma {:induction false} SubsequenceMultiset(r: seq<string>, s: seq<string>)
    requires IsSubsequence(r, s)
    ensures multiset(r) <= multiset(s)
    decreases |s|
  {
    if r != [] {
      assert s == [s[0]] + s[1..];
      if r[0] == s[0] {
        assert r == [r[0]] + r[1..];
        SubsequenceMultiset(r[1..], s[1..]);
      } else {
        SubsequenceMultiset(r, s[1..]);
      }
    }
  }

  /** Deleting a value that is not in the list leaves it unchanged. */
  lemma {:induction false} DeleteAbsentIsNoOp(s: seq<string>, target: string)
    requires target !in s
    ensures Without(s, target) == s
  {
    if s != [] {
      assert s == [s[0]] + s[1..];
      DeleteAbsentIsNoOp(s[1..], target);
    }
  }

  /** Deleting the same value twice is the same as deleting it once. */
  lemma DeleteIdempotent(s: seq<string>, target: string)
    ensures Without(Without(s, target), target) == Without(s, target)
  {
    DeleteAbsentIsNoOp(Without(s, target), target);
  }

  /** The filter works element by element: deleting from a concatenation
      deletes from each part and keeps the parts in order. */
  lemma {:induction false} DeleteDistributes(a: seq<string>, b: seq<string>, target: string)
    ensures Without(a + b, target) == Without(a, target) + Without(b, target)
  {
    if a != [] {
      assert (a + b)[1..] == a[1..] + b;
      DeleteDistributes(a[1..], b, target);
    } else {
      assert a + b == b;
    }
  }

  /** Uniqueness: any list that keeps the order of `s` and holds exactly the
      elements of `s` other than `target`, with their multiplicities, is the
      result of the filter. */
  lemma {:induction false} DeleteCharacterized(s: seq<string>, target: string, r: seq<string>)
    requires IsSubsequence(r, s)
    requires multiset(r) == multiset(s)[target := 0]
    ensures r == Without(s, target)
    decreases |s|
  {
    if s == [] {
    } else {
      assert s == [s[0]] + s[1..];
      var c := s[0];
      if r == [] {
        assert c == target by {
          assert multiset(s)[c] > 0;
        }
        assert multiset(s[1..])[target := 0] == multiset(s)[target := 0];
        DeleteCharacterized(s[1..], target, r);
      } else if r[0] == c {
        assert r == [r[0]] + r[1..];
        assert multiset(r)[target] == 0;
        assert c != target;
        forall x ensures multiset(r[1..])[x] == multiset(s[1..])[target := 0][x] {
          assert multiset(r)[x] == multiset{c}[x] + multiset(r[1..])[x];
          assert multiset(s)[x] == multiset{c}[x] + multiset(s[1..])[x];
        }
        assert multiset(r[1..]) == multiset(s[1..])[target := 0];
        DeleteCharacterized(s[1..], target, r[1..]);
      } else {
        SubsequenceMultiset(r, s[1..]);
        if c == target {
          assert multiset(s[1..])[target := 0] == multiset(s)[target := 0];
          DeleteCharacterized(s[1..], target, r);
        } else {
          assert false;
        }
      }
    }
  }

  /** Every copy of a duplicated comment goes at once. */
  lemma DeleteEveryCopy()
    ensures Without(["x", "y", "x"], "x") == ["y"]
  {
    var s := ["x", "y", "x"];
    assert s[1..] == ["y", "x"] && s[1..][1..] == ["x"] && s[1..][1..][1..] == [];
  }

  // ---------------------------------------------------------------------------
  // Transitions

  /** hasCreatNewComment: append the draft, then reset it. No emptiness check
      and no deduplication. */
  function Submit(t: Thread): (r: Thread)
    ensures |r.comments| == |t.comments| + 1
    ensures forall i :: 0 <= i < |t.comments| ==> r.comments[i] == t.comments[i]
    ensures r.comments[|t.comments|] == t.draft
    ensures multiset(r.comments)[t.draft] == multiset(t.comments)[t.draft] + 1
    ensures r.validityMessage == t.validityMessage
    ensures IsNewCommentEmpty(r)
  {
    t.(comments := t.comments + [t.draft], draft := "")
  }

  /** handleNewCommentText: clear the custom validity message, then replace
      the draft. Whatever the message was, it is gone afterwards. */
  function Edit(t: Thread, text: string): (r: Thread)
    ensures r.validityMessage == "" && r.draft == text
    ensures r.comments == t.comments
    ensures IsNewCommentEmpty(r) <==> text == ""
  {
    t.(validityMessage := "", draft := text)
  }

  /** handleNewCommentInvalid: attach the required-field message. */
  function Invalid(t: Thread): (r: Thread)
    ensures r.validityMessage == RequiredMessage && r.validityMessage != ""
    ensures r.comments == t.comments && r.draft == t.draft
  {
    t.(validityMessage := RequiredMessage)
  }

  /** deleteComment: replace the list by the filtered one. */
  function Delete(t: Thread, target: string): (r: Thread)
    ensures forall x :: x in r.comments <==> x in t.comments && x != target
    ensures |r.comments| == |t.comments| - multiset(t.comments)[target]
    ensures r.draft == t.draft && r.validityMessage == t.validityMessage
  {
    t.(comments := Without(t.comments, target))
  }

  /** A submission of the form under the browser's constraint validation. The
      textarea is invalid while it is `required` and empty, and while it
      carries a custom validity message; the browser then fires the invalid
      event instead of the submit handler. */
  function Attempt(t: Thread): (r: Thread)
    ensures r.comments == t.comments || (t.draft != "" && r.comments == t.comments + [t.draft])
    ensures |t.draft| == 0 || t.validityMessage != "" ==>
              r.comments == t.comments && r.draft == t.draft && r.validityMessage == RequiredMessage
    ensures |t.draft| > 0 && t.validityMessage == "" ==>
              r.comments == t.comments + [t.draft] && r.draft == "" && r.validityMessage == ""
  {
    if |t.draft| == 0 || t.validityMessage != "" then Invalid(t) else Submit(t)
  }

  /** Once the message is set, a submission stays blocked, and an edit clears
      the message as if it had never been set. */
  lemma InvalidBlocksSubmitUntilEdit(t: Thread, text: string)
    ensures Attempt(Invalid(t)) == Invalid(t)
    ensures Edit(Invalid(t), text) == Edit(t, text)
  {
  }

  // ---------------------------------------------------------------------------
  // Traces of user events

  /** What a user can do: type into the textarea, press the "Publicar"
      button, or press the delete control of a rendered comment. The invalid
      event is not a user event: only the browser fires it, from a submission. */
  datatype UserEvent = Type(text: string) | Publish | Remove(target: string)

  /** One user event. The button is disabled while the draft is empty, so
      pressing it then does nothing; otherwise it submits the form. */
  function Step(t: Thread, e: UserEvent): (r: Thread)
    ensures e.Publish? && IsNewCommentEmpty(t) ==> r == t
    ensures |r.comments| <= |t.comments| + 1
    ensures forall c :: c in r.comments ==> c in t.comments || (c == t.draft && c != "")
  {
    match e
    case Type(text) => Edit(t, text)
    case Publish => if IsNewCommentEmpty(t) then t else Attempt(t)
    case Remove(target) => Delete(t, target)
  }

  /** A sequence of user events, applied in order. Each event adds at most
      one comment, and an empty comment is never added. */
  function Run(t: Thread, es: seq<UserEvent>): (r: Thread)
    ensures |r.comments| <= |t.comments| + |es|
    ensures (forall c :: c in t.comments ==> c != "") ==> (forall c :: c in r.comments ==> c != "")
    decreases |es|
  {
    if es == [] then t else Run(Step(t, es[0]), es[1..])
  }

  lemma {:induction false} RunConcat(t: Thread, a: seq<UserEvent>, b: seq<UserEvent>)
    ensures Run(t, a + b) == Run(Run(t, a), b)
    decreases |a|
  {
    if a == [] {
      assert a + b == b;
    } else {
      assert (a + b)[1..] == a[1..] + b;
      RunConcat(Step(t, a[0]), a[1..], b);
    }
  }

  /** The invariant of every state a user can reach: no comment is empty,
      and no validity message is set. The disabled button keeps every
      submission of an empty draft from happening, so the invalid event
      never fires. */
  predicate Coherent(t: Thread) {
    (forall c :: c in t.comments ==> c != "") && t.validityMessage == ""
  }

  lemma StepPreservesCoherent(t: Thread, e: UserEvent)
    requires Coherent(t)
    ensures Coherent(Step(t, e))
  {
  }

  lemma {:induction false} RunPreservesCoherent(t: Thread, es: seq<UserEvent>)
    requires Coherent(t)
    ensures Coherent(Run(t, es))
    decreases |es|
  {
    if es != [] {
      StepPreservesCoherent(t, es[0]);
      RunPreservesCoherent(Step(t, es[0]), es[1..]);
    }
  }

  /** Every state reachable from mount is coherent. */
  lemma ReachableIsCoherent(es: seq<UserEvent>)
    ensures Coherent(Run(Initial(), es))
  {
    RunPreservesCoherent(Initial(), es);
  }

  /** Typing each draft and pressing the button after it. */
  function TypeAndPublish(ds: seq<string>): seq<UserEvent>
  {
    if ds == [] then [] else [Type(ds[0]), Publish] + TypeAndPublish(ds[1..])
  }

  /** Submitting non-empty drafts d1..dn appends them, in order, to the list,
      and leaves the draft empty and the message cleared. */
  lemma {:induction false} TypeAndPublishAppends(t: Thread, ds: seq<string>)
    requires forall d :: d in ds ==> d != ""
    ensures Run(t, TypeAndPublish(ds)).comments == t.comments + ds
    ensures ds != [] ==> Run(t, TypeAndPublish(ds)).draft == ""
    ensures ds != [] ==> Run(t, TypeAndPublish(ds)).validityMessage == ""
    decreases |ds|
  {
    if ds == [] {
      assert t.comments + ds == t.comments;
    } else {
      var first := [Type(ds[0]), Publish];
      RunConcat(t, first, TypeAndPublish(ds[1..]));
      var t' := Run(t, first);
      assert ds[0] in ds;
      assert first[1..] == [Publish];
      assert t' == Run(Edit(t, ds[0]), [Publish]);
      assert t' == Submit(Edit(t, ds[0]));
      assert forall d :: d in ds[1..] ==> d in ds;
      TypeAndPublishAppends(t', ds[1..]);
      assert t.comments + ds == t'.comments + ds[1..];
    }
  }

  /** A comment added after a deletion survives it: deleting and then
      submitting is submitting and then deleting, unless the draft is the
      deleted value. */
  lemma DeleteThenSubmit(t: Thread, target: string)
    requires t.draft != target
    ensures Submit(Delete(t, target)) == Delete(Submit(t), target)
  {
    DeleteDistributes(t.comments, [t.draft], target);
  }

  /** Submitting a draft that is already in the list keeps both copies; a
      later delete of that value removes all of them. */
  lemma DuplicatesRemovedTogether(t: Thread)
    ensures multiset(Delete(Submit(t), t.draft).comments)[t.draft] == 0
    ensures |Delete(Submit(t), t.draft).comments| == |t.comments| - multiset(t.comments)[t.draft]
  {
  }
}
