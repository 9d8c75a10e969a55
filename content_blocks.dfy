/** The selection rule of the post body: each content line is turned into a
    paragraph or a link by its type tag, and any other tag yields nothing. */
module ContentBlocks {

  datatype Option<T> = None | Some(value: T)

  /** One line of a post's content; `kind` is the line's `type` tag. */
  datatype Content = Content(kind: string, content: string)

  /** What the post body shows for one line. A link's target is always empty:
      the content carries no destination. */
  datatype Block = Paragraph(text: string) | Link(text: string, href: string)

  predicate IsRenderable(line: Content) {
    line.kind == "paragraph" || line.kind == "link"
  }

  /** The callback given to content.map; `None` is its undefined result. */
  function RenderLine(line: Content): (r: Option<Block>)
    ensures r.Some? <==> IsRenderable(line)
    ensures r.Some? ==> r.value.text == line.content
    ensures r.Some? ==> (r.value.Link? <==> line.kind == "link")
    ensures r.Some? && r.value.Link? ==> r.value.href == ""
  {
    if line.kind == "paragraph" then Some(Paragraph(line.content))
    else if line.kind == "link" then Some(Link(line.content, ""))
    else None
  }

  /** The blocks the post body shows: the mapped lines, with the undefined
      results left out as React leaves them out. */
  function Rendered(content: seq<Content>): (r: seq<Block>)
    ensures |r| <= |content|
    ensures forall b :: b in r && b.Link? ==> b.href == ""
  {
    if content == [] then []
    else
      match RenderLine(content[0])
      case None => Rendered(content[1..])
      case Some(b) => [b] + Rendered(content[1..])
  }

  /** The type tags of the lines, in order. */
  function Kinds(content: seq<Content>): seq<string>
  {
    seq(|content|, i requires 0 <= i < |content| => content[i].kind)
  }

  /** A single line shows as its own block, or as nothing when its tag is
      neither paragraph nor link. */
  lemma RenderedSingle(line: Content)
    ensures Rendered([line]) == if IsRenderable(line) then [RenderLine(line).value] else []
  {
    assert [line][1..] == [];
  }

  /** Lines are rendered independently and in order: the blocks of a
      concatenation are the blocks of each part, concatenated. With
      RenderedSingle this determines Rendered on every input. */
  lemma {:induction false} RenderedConcat(a: seq<Content>, b: seq<Content>)
    ensures Rendered(a + b) == Rendered(a) + Rendered(b)
  {
    if a == [] {
      assert a + b == b;
    } else {
      assert (a + b)[0] == a[0];
      assert (a + b)[1..] == a[1..] + b;
      RenderedConcat(a[1..], b);
    }
  }

  /** A line with any other tag contributes nothing wherever it stands. */
  lemma RenderedSkipsOthers(a: seq<Content>, line: Content, b: seq<Content>)
    requires !IsRenderable(line)
    ensures Rendered(a + [line] + b) == Rendered(a + b)
  {
    RenderedConcat(a + [line], b);
    RenderedConcat(a, [line]);
    RenderedSingle(line);
    RenderedConcat(a, b);
  }

  /** The number of blocks shown is the number of paragraph lines plus the
      number of link lines. */
  lemma {:induction false} RenderedCount(content: seq<Content>)
    ensures |Rendered(content)| == multiset(Kinds(content))["paragraph"] + multiset(Kinds(content))["link"]
  {
    if content != [] {
      assert Kinds(content) == [content[0].kind] + Kinds(content[1..]);
      RenderedCount(content[1..]);
    }
  }

  /** The sample body: a paragraph, a line with an unknown tag, and a link. */
  lemma SampleBody()
    ensures Rendered([Content("paragraph", "Hi"), Content("table", "ignored"), Content("link", "See more")])
         == [Paragraph("Hi"), Link("See more", "")]
  {
    var body := [Content("paragraph", "Hi"), Content("table", "ignored"), Content("link", "See more")];
    assert body[1..][1..] == [Content("link", "See more")];
    RenderedSingle(Content("link", "See more"));
  }
}
