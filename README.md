# Post comment thread, in Dafny

A model of the `Post` component of a small React feed. The component keeps an
ordered list of comment texts, seeded with "Bem vindo", and the draft typed
into its textarea. It adds the draft to the list on submit and deletes
comments by value. A derived flag disables the "Publicar" button while the
draft is empty. The textarea is `required`, and its custom validity message
is set on the invalid event and cleared on every edit. The post body turns
each content line into a paragraph or a link by its type tag.

- `comment_thread.dfy`, module `CommentThread`: the thread as a value
  `Thread(comments, draft, validityMessage)`. Each handler is a pure transition
  on it. `Without` is the value-based filter of `deleteComment`. The module
  also defines traces of user events (type, press the button, delete) and the invariant
  that every reachable state keeps.
- `post.dfy`, module `PostComponent`: class `Post`, whose three fields are the
  two React state cells and the textarea's validity message. Its methods
  update the fields in place. Each method states the new fields and ties the
  new `State()` to the pure transition, so the lemmas about
  `CommentThread` carry over to the object. `Walkthrough` steps through one
  session: a press of the button with an empty draft does nothing, a typed
  comment is appended, and the welcome comment is deleted by value.
- `content_blocks.dfy`, module `ContentBlocks`: the `content.map` rule.
  `paragraph` becomes a paragraph, `link` becomes a link with an empty target,
  and any other tag renders nothing.

The custom validity message is 'Campo obrigatorio teste'. The form has two
guards. The submit button is disabled while the draft is empty, so pressing it
then does nothing (`Step` on `Publish`, `Post.PressPublish`). A submission of
the form itself passes the browser's constraint validation: while the textarea
is empty (it is `required`) or carries a custom validity message, the browser
fires the invalid event instead of the submit handler, and
`handleNewCommentInvalid` sets the message (`Attempt`, `Post.SubmitForm`).
Since a textarea offers no other way to submit the form, a user who only
types, presses the button and deletes comments never sees the invalid event:
`ReachableIsCoherent` proves the message stays empty in every such state.

## Model

| member | source | states |
|---|---|---|
| `CommentThread.Without` | src/components/Post.tsx:55-59 | a comment survives the delete iff it was in the list and differs from the target; the multiplicities of the survivors are unchanged and the target's becomes 0; the new length is the old length minus the target's occurrences; the result keeps the original order (is a subsequence) |
| `CommentThread.DeleteCharacterized` | src/components/Post.tsx:56-58 | any order-preserving sublist that holds exactly the non-target elements with their multiplicities equals the filter's result, so the filter is determined by those properties |
| `CommentThread.DeleteAbsentIsNoOp` | src/components/Post.tsx:55-59 | deleting a value that does not occur leaves the list unchanged |
| `CommentThread.DeleteIdempotent` | src/components/Post.tsx:55-59 | deleting the same value twice gives the same list as deleting it once |
| `CommentThread.DeleteDistributes` | src/components/Post.tsx:56-58 | the filter works element by element: deleting from a concatenation is deleting from each part, in order |
| `CommentThread.DeleteEveryCopy` | src/components/Post.tsx:56-58 | deleting "x" from ["x", "y", "x"] leaves ["y"] |
| `CommentThread.Initial` | src/components/Post.tsx:28-29 | the mounted thread holds exactly one comment, "Bem vindo", has an empty draft (button disabled) and no message |
| `CommentThread.IsNewCommentEmpty` | src/components/Post.tsx:62 | the flag holds iff the draft is the empty string |
| `CommentThread.Submit` | src/components/Post.tsx:40-44 | submit grows the list by exactly one, keeps every earlier element in its position, puts the draft last with no emptiness check and no deduplication (its count rises by one), leaves the message alone and makes the disabled flag true |
| `CommentThread.Edit` | src/components/Post.tsx:50-53 | an edit always leaves an empty message and the new text as draft, whatever the prior message was; the list is unchanged and the button is disabled iff the new text is empty |
| `CommentThread.Invalid` | src/components/Post.tsx:46-48 | the invalid event sets the message to 'Campo obrigatorio teste' and leaves the list and the draft unchanged |
| `CommentThread.Delete` | src/components/Post.tsx:55-60 | after a delete the list holds exactly the old comments other than the target and is shorter by the target's occurrences; the draft and the message are unchanged |
| `CommentThread.Attempt` | src/components/Post.tsx:88-98 | a form submission either leaves the list as it was or appends the non-empty draft; with an empty draft or a set message it only sets the message, otherwise it appends the draft and resets it |
| `CommentThread.InvalidBlocksSubmitUntilEdit` | src/components/Post.tsx:46-53 | once the message is set a submission stays blocked, and the next edit clears it as if it had never been set |
| `CommentThread.Step` | src/components/Post.tsx:88-100 | pressing the button with an empty draft changes nothing; every event adds at most one comment, and any new comment is the non-empty draft |
| `CommentThread.Run` | src/components/Post.tsx:40-100 | a sequence of n events adds at most n comments and never adds an empty one |
| `CommentThread.StepPreservesCoherent` | src/components/Post.tsx:40-100 | every user event keeps the invariant: no comment is empty and no validity message is set |
| `CommentThread.RunPreservesCoherent` | src/components/Post.tsx:40-100 | any sequence of user events keeps that invariant |
| `CommentThread.ReachableIsCoherent` | src/components/Post.tsx:28-100 | every state reachable from the mounted state satisfies the invariant |
| `CommentThread.RunConcat` | src/components/Post.tsx:40-59 | running two event sequences one after the other is running their concatenation |
| `CommentThread.TypeAndPublishAppends` | src/components/Post.tsx:40-53 | typing and submitting non-empty drafts d1..dn appends exactly d1..dn, in order, to the list and ends with an empty draft and no message |
| `CommentThread.DeleteThenSubmit` | src/components/Post.tsx:40-59 | a delete followed by a submit of a different draft gives the same thread as the submit followed by the delete |
| `CommentThread.DuplicatesRemovedTogether` | src/components/Post.tsx:40-59 | after a draft is submitted, deleting that value removes every copy, the new one included; the length drops to the old length minus the old copies |
| `PostComponent.Post.constructor` | src/components/Post.tsx:28-29 | a new post has comments ["Bem vindo"], an empty draft and no message |
| `PostComponent.Post.CreateComment` | src/components/Post.tsx:40-44 | the list becomes old list + [old draft], the draft becomes empty, the message is unchanged |
| `PostComponent.Post.ChangeDraft` | src/components/Post.tsx:50-53 | the message becomes empty and the draft becomes the new text; the list is unchanged |
| `PostComponent.Post.MarkInvalid` | src/components/Post.tsx:46-48 | the message becomes 'Campo obrigatorio teste'; the list and the draft are unchanged |
| `PostComponent.Post.SubmitForm` | src/components/Post.tsx:88-98 | with an empty draft or a set message the browser blocks the handler: the list and the draft stay, and the invalid message is set; otherwise the draft is appended and reset |
| `PostComponent.Post.IsSubmitDisabled` | src/components/Post.tsx:62 | the button is disabled iff the draft has length 0 |
| `PostComponent.Post.PressPublish` | src/components/Post.tsx:100 | a press of the disabled button changes nothing; otherwise the form is submitted |
| `PostComponent.Post.DeleteComment` | src/components/Post.tsx:55-60 | the list becomes the filtered old list; the draft and the message are unchanged |
| `ContentBlocks.RenderLine` | src/components/Post.tsx:79-85 | a line yields a block iff its tag is paragraph or link; the block carries the line's text, it is a link exactly for the link tag, and a link's target is empty |
| `ContentBlocks.Rendered` | src/components/Post.tsx:79-85 | the body shows at most one block per line, and every shown link has an empty target |
| `ContentBlocks.RenderedSingle` | src/components/Post.tsx:79-85 | one line shows as its own block, or as nothing for any other tag |
| `ContentBlocks.RenderedConcat` | src/components/Post.tsx:79-85 | the blocks of a concatenation are the blocks of each part, in order; with RenderedSingle this fixes the output as the in-order blocks of the paragraph and link lines |
| `ContentBlocks.RenderedSkipsOthers` | src/components/Post.tsx:79-85 | a line with another tag contributes nothing wherever it stands |
| `ContentBlocks.RenderedCount` | src/components/Post.tsx:79-85 | the number of blocks shown is the number of paragraph lines plus the number of link lines |
| `ContentBlocks.SampleBody` | src/components/Post.tsx:79-85 | a paragraph "Hi", a "table" line and a link "See more" show as exactly a paragraph "Hi" and a link "See more" with an empty target |

## Left out

- Date formatting (`format`, `formatDistanceToNow` with the pt-BR locale, `toISOString`, src/components/Post.tsx:31-38, 74): these are library calls that depend on the clock and the locale. `publishedAt` is not modelled.
- The JSX view tree, the CSS module classes and the `Avatar` and `Comment` child components (src/components/Post.tsx:5-7, 64-115) are presentational. Avatar.tsx and Comment.tsx are not part of this model. A press of a comment's delete control is modelled as the `Remove(target)` user event with that comment's text.
- `event.preventDefault()` (src/components/Post.tsx:41) is DOM event plumbing and has no effect on the modelled state.
- React keys built from `comment` and `line.content` can collide for equal texts. That is a renderer concern with no effect on state.
- The browser's constraint validation is modelled only as the branch in `Attempt` / `Post.SubmitForm` (an empty required textarea or a set custom message blocks the submission). Other validity checks of the browser do not apply to this textarea and are not modelled.
- React's scheduling and batching of `setState`: each handler is one atomic sequential update of the fields. `CreateComment` reads the draft of the current render, which is the field's value at the start of the method.
- The author props (avatar URL, name, role) are only displayed and are not modelled.
