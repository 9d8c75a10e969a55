/** The Post component's state cells and handlers. React keeps the comment
    list and the draft in two state cells and the browser keeps the custom
    validity message on the textarea; here they are three fields of one
    object, and each handler is an atomic update of them. */
module PostComponent {
  import opened CommentThread

  class Post {
    var comments: seq<string>
    var draft: string
    var validityMessage: string

    /** The thread value the fields hold. */
    function State(): Thread
      reads this
    {
      Thread(comments, draft, validityMessage)
    }

    /** Mounting: one welcome comment, an empty draft, no message. */
    constructor ()
      ensures comments == [WelcomeComment] && draft == "" && validityMessage == ""
      ensures State() == Initial()
    {
      comments := [WelcomeComment];
      draft := "";
      validityMessage := "";
    }

    /** hasCreatNewComment, the form's submit handler. */
    method CreateComment()
      modifies this
      ensures comments == old(comments) + [old(draft)]
      ensures draft == "" && validityMessage == old(validityMessage)
      ensures State() == Submit(old(State()))
    {
      comments := comments + [draft];
      draft := "";
    }

    /** handleNewCommentText: the message is cleared before the draft changes. */
    method ChangeDraft(text: string)
      modifies this
      ensures validityMessage == "" && draft == text && comments == old(comments)
      ensures State() == Edit(old(State()), text)
    {
      validityMessage := "";
      draft := text;
    }

    /** handleNewCommentInvalid. */
    method MarkInvalid()
      modifies this
      ensures validityMessage == RequiredMessage
      ensures comments == old(comments) && draft == old(draft)
      ensures State() == Invalid(old(State()))
    {
      validityMessage := RequiredMessage;
    }

    /** deleteComment: the filtered list replaces the old one. */
    method DeleteComment(target: string)
      modifies this
      ensures comments == Without(old(comments), target)
      ensures draft == old(draft) && validityMessage == old(validityMessage)
      ensures State() == Delete(old(State()), target)
    {
      comments := Without(comments, target);
    }

    /** A submission of the form: while the textarea is empty or carries a
        custom validity message, the browser fires the invalid event instead
        of the submit handler. */
    method SubmitForm()
      modifies this
      ensures old(draft) == "" || old(validityMessage) != "" ==>
                comments == old(comments) && draft == old(draft) && validityMessage == RequiredMessage
      ensures old(draft) != "" && old(validityMessage) == "" ==>
                comments == old(comments) + [old(draft)] && draft == "" && validityMessage == ""
      ensures State() == Attempt(old(State()))
    {
      if |draft| == 0 || validityMessage != "" {
        MarkInvalid();
      } else {
        CreateComment();
      }
    }

    /** The `disabled` attribute of the submit button. */
    function IsSubmitDisabled(): (disabled: bool)
      reads this
      ensures disabled <==> |draft| == 0
    {
      IsNewCommentEmpty(State())
    }

    /** A press of the "Publicar" button: a disabled button does nothing,
        an enabled one submits the form. */
    method PressPublish()
      modifies this
      ensures old(draft) == "" ==> comments == old(comments) && draft == "" && validityMessage == old(validityMessage)
      ensures State() == Step(old(State()), Publish)
    {
      if !IsSubmitDisabled() {
        SubmitForm();
      }
    }
  }

  /** One session: a press with an empty draft does nothing, a typed comment
      is appended, and a delete removes the welcome comment by value. */
  method Walkthrough() {
    var post := new Post();
    assert post.IsSubmitDisabled();
    post.PressPublish();
    assert post.comments == ["Bem vindo"] && post.validityMessage == "";

    post.ChangeDraft("Great post!");
    assert !post.IsSubmitDisabled();
    post.PressPublish();
    assert post.comments == ["Bem vindo", "Great post!"] && post.draft == "";

    var before := post.comments;
    assert before[1..] == ["Great post!"] && before[1..][1..] == [];
    post.DeleteComment("Bem vindo");
    assert post.comments == ["Great post!"];
  }
}
