/** The parts of a message (`Part`, `Parts`) and the operations over them: the attachment filter, the
    folding of text parts into one body, the overlay rule of `merge_with` and the replacement of the
    plain-text parts used by `into_forward`. */
module Parts {
  import opened Externals
  import Text

  /** An attachment: file name, MIME type string and raw content (`BinaryPart`). */
  datatype BinaryPart = BinaryPart(filename: string, mime: string, content: seq<byte>)

  /** One part of a message. */
  datatype Part =
    | TextPlain(content: string)
    | TextHtml(content: string)
    | Binary(part: BinaryPart)

  /** The glue the folds put between two text bodies. */
  const BlankLine: string := "\n\n"

  // ---------------------------------------------------------------------------------------------
  // Projections

  /** `Msg::attachments`: the Binary parts, in collection order. */
  function Attachments(parts: seq<Part>): (r: seq<BinaryPart>)
    ensures |r| <= |parts|
  {
    if parts == [] then []
    else (if parts[0].Binary? then [parts[0].part] else []) + Attachments(parts[1..])
  }

  /** The contents of the TextPlain parts, in collection order. */
  function PlainContents(parts: seq<Part>): (r: seq<string>)
    ensures |r| <= |parts|
  {
    if parts == [] then []
    else (if parts[0].TextPlain? then [parts[0].content] else []) + PlainContents(parts[1..])
  }

  /** The contents of the TextHtml parts, in collection order. */
  function HtmlContents(parts: seq<Part>): (r: seq<string>)
    ensures |r| <= |parts|
  {
    if parts == [] then []
    else (if parts[0].TextHtml? then [parts[0].content] else []) + HtmlContents(parts[1..])
  }

  /** The attachments are exactly the Binary parts of the collection. */
  lemma {:induction false} AttachmentsAreBinaryParts(parts: seq<Part>)
    ensures forall b :: b in Attachments(parts) <==> Binary(b) in parts
  {
    if parts != [] {
      AttachmentsAreBinaryParts(parts[1..]);
      assert parts == [parts[0]] + parts[1..];
    }
  }

  /** Attachments distribute over concatenation. */
  lemma {:induction false} AttachmentsOfAppend(a: seq<Part>, b: seq<Part>)
    ensures Attachments(a + b) == Attachments(a) + Attachments(b)
  {
    if a == [] {
      assert a + b == b;
    } else {
      var ab := a + b;
      assert ab[0] == a[0] && ab[1..] == a[1..] + b;
      var head := if a[0].Binary? then [a[0].part] else [];
      assert Attachments(a) == head + Attachments(a[1..]);
      assert Attachments(ab) == head + Attachments(a[1..] + b);
      AttachmentsOfAppend(a[1..], b);
    }
  }

  /** Plain contents distribute over concatenation. */
  lemma {:induction false} PlainContentsOfAppend(a: seq<Part>, b: seq<Part>)
    ensures PlainContents(a + b) == PlainContents(a) + PlainContents(b)
  {
    if a == [] {
      assert a + b == b;
    } else {
      var ab := a + b;
      assert ab[0] == a[0] && ab[1..] == a[1..] + b;
      var head := if a[0].TextPlain? then [a[0].content] else [];
      assert PlainContents(a) == head + PlainContents(a[1..]);
      assert PlainContents(ab) == head + PlainContents(a[1..] + b);
      PlainContentsOfAppend(a[1..], b);
    }
  }

  /** HTML contents distribute over concatenation. */
  lemma {:induction false} HtmlContentsOfAppend(a: seq<Part>, b: seq<Part>)
    ensures HtmlContents(a + b) == HtmlContents(a) + HtmlContents(b)
  {
    if a == [] {
      assert a + b == b;
    } else {
      var ab := a + b;
      assert ab[0] == a[0] && ab[1..] == a[1..] + b;
      var head := if a[0].TextHtml? then [a[0].content] else [];
      assert HtmlContents(a) == head + HtmlContents(a[1..]);
      assert HtmlContents(ab) == head + HtmlContents(a[1..] + b);
      HtmlContentsOfAppend(a[1..], b);
    }
  }

  /** The three projections distribute over concatenation. */
  lemma ProjectionsOfAppend(a: seq<Part>, b: seq<Part>)
    ensures Attachments(a + b) == Attachments(a) + Attachments(b)
    ensures PlainContents(a + b) == PlainContents(a) + PlainContents(b)
    ensures HtmlContents(a + b) == HtmlContents(a) + HtmlContents(b)
  {
    AttachmentsOfAppend(a, b);
    PlainContentsOfAppend(a, b);
    HtmlContentsOfAppend(a, b);
  }

  /** The projections of a one-part collection. */
  lemma ProjectionsOfOne(p: Part)
    ensures Attachments([p]) == if p.Binary? then [p.part] else []
    ensures PlainContents([p]) == if p.TextPlain? then [p.content] else []
    ensures HtmlContents([p]) == if p.TextHtml? then [p.content] else []
  {
    assert [p][1..] == [];
  }

  // ---------------------------------------------------------------------------------------------
  // Removing every part of one kind (`retain(|p| !matches!(p, ...))`)

  /** The collection without its TextPlain parts, the others in their order. */
  function WithoutPlain(parts: seq<Part>): seq<Part>
  {
    if parts == [] then []
    else (if parts[0].TextPlain? then [] else [parts[0]]) + WithoutPlain(parts[1..])
  }

  /** The collection without its TextHtml parts, the others in their order. */
  function WithoutHtml(parts: seq<Part>): seq<Part>
  {
    if parts == [] then []
    else (if parts[0].TextHtml? then [] else [parts[0]]) + WithoutHtml(parts[1..])
  }

  /** Removing the TextPlain parts leaves no plain text and keeps HTML and attachments as they were. */
  lemma {:induction false} WithoutPlainProjections(parts: seq<Part>)
    ensures PlainContents(WithoutPlain(parts)) == []
    ensures HtmlContents(WithoutPlain(parts)) == HtmlContents(parts)
    ensures Attachments(WithoutPlain(parts)) == Attachments(parts)
  {
    if parts != [] {
      WithoutPlainProjections(parts[1..]);
      var head := if parts[0].TextPlain? then [] else [parts[0]];
      ProjectionsOfAppend(head, WithoutPlain(parts[1..]));
      if !parts[0].TextPlain? { ProjectionsOfOne(parts[0]); }
    }
  }

  /** Removing the TextHtml parts leaves no HTML and keeps plain text and attachments as they were. */
  lemma {:induction false} WithoutHtmlProjections(parts: seq<Part>)
    ensures HtmlContents(WithoutHtml(parts)) == []
    ensures PlainContents(WithoutHtml(parts)) == PlainContents(parts)
    ensures Attachments(WithoutHtml(parts)) == Attachments(parts)
  {
    if parts != [] {
      WithoutHtmlProjections(parts[1..]);
      var head := if parts[0].TextHtml? then [] else [parts[0]];
      ProjectionsOfAppend(head, WithoutHtml(parts[1..]));
      if !parts[0].TextHtml? { ProjectionsOfOne(parts[0]); }
    }
  }

  // ---------------------------------------------------------------------------------------------
  // Folding the text parts into one body

  /** One step of the accumulator fold: the blank-line glue goes in only when the accumulator is non-empty. */
  function Glue(acc: string, content: string): string {
    acc + (if acc == "" then "" else BlankLine) + content
  }

  /** The `(plain, html)` accumulator pair of `fold_text_plain_parts`, folded over the parts in order. */
  function FoldAccumulators(parts: seq<Part>): (string, string)
    decreases |parts|
  {
    if parts == [] then ("", "")
    else
      var acc := FoldAccumulators(parts[..|parts| - 1]);
      match parts[|parts| - 1]
      case TextPlain(c) => (Glue(acc.0, c), acc.1)
      case TextHtml(c) => (acc.0, Glue(acc.1, c))
      case Binary(_) => acc
  }

  /** Every string of the sequence is empty. */
  predicate AllEmpty(contents: seq<string>) {
    forall i :: 0 <= i < |contents| ==> contents[i] == ""
  }

  /** The contents from the first non-empty one on. */
  function DropLeadingEmpty(contents: seq<string>): (r: seq<string>)
    ensures r == [] <==> AllEmpty(contents)
    ensures r != [] ==> r[0] != ""
  {
    if contents == [] then []
    else if contents[0] == "" then DropLeadingEmpty(contents[1..])
    else contents
  }

  /** Dropping leading empty strings commutes with appending one more string. */
  lemma {:induction false} DropLeadingEmptySnoc(contents: seq<string>, c: string)
    ensures DropLeadingEmpty(contents + [c])
         == if DropLeadingEmpty(contents) == [] then (if c == "" then [] else [c])
            else DropLeadingEmpty(contents) + [c]
  {
    if contents == [] {
      assert [c][1..] == [];
    } else {
      assert (contents + [c])[1..] == contents[1..] + [c];
      if contents[0] == "" { DropLeadingEmptySnoc(contents[1..], c); }
    }
  }

  /** Folding with the glue rule is joining with a blank line, once leading empty contents are dropped. */
  lemma {:induction false} GlueFoldIsJoin(acc: string, contents: seq<string>, c: string)
    requires acc == Text.JoinWith(DropLeadingEmpty(contents), BlankLine)
    ensures Glue(acc, c) == Text.JoinWith(DropLeadingEmpty(contents + [c]), BlankLine)
  {
    DropLeadingEmptySnoc(contents, c);
    var d := DropLeadingEmpty(contents);
    if d != [] {
      Text.JoinWithEdges(d, BlankLine);
      Text.JoinWithSnoc(d, c, BlankLine);
    }
  }

  /** The two accumulators are the plain and the HTML contents, each joined by a blank line after
      its leading empty contents are dropped. */
  lemma {:induction false} FoldAccumulatorsAreJoins(parts: seq<Part>)
    ensures FoldAccumulators(parts).0 == Text.JoinWith(DropLeadingEmpty(PlainContents(parts)), BlankLine)
    ensures FoldAccumulators(parts).1 == Text.JoinWith(DropLeadingEmpty(HtmlContents(parts)), BlankLine)
    decreases |parts|
  {
    if parts != [] {
      var init := parts[..|parts| - 1];
      var last := parts[|parts| - 1];
      FoldAccumulatorsAreJoins(init);
      assert parts == init + [last];
      ProjectionsOfAppend(init, [last]);
      ProjectionsOfOne(last);
      match last
      case TextPlain(c) =>
        assert HtmlContents(parts) == HtmlContents(init);
        GlueFoldIsJoin(FoldAccumulators(init).0, PlainContents(init), c);
      case TextHtml(c) =>
        assert PlainContents(parts) == PlainContents(init);
        GlueFoldIsJoin(FoldAccumulators(init).1, HtmlContents(init), c);
      case Binary(_) =>
        assert PlainContents(parts) == PlainContents(init);
        assert HtmlContents(parts) == HtmlContents(init);
    }
  }

  /** A join of pieces whose first one is non-empty is non-empty. */
  lemma JoinOfNonEmptyHead(pieces: seq<string>, glue: string)
    requires pieces != [] && pieces[0] != ""
    ensures Text.JoinWith(pieces, glue) != ""
  {
    Text.JoinWithEdges(pieces, glue);
  }

  /** The plain accumulator is empty exactly when every TextPlain part is empty (or there is none). */
  lemma PlainAccumulatorEmpty(parts: seq<Part>)
    ensures FoldAccumulators(parts).0 == "" <==> AllEmpty(PlainContents(parts))
  {
    FoldAccumulatorsAreJoins(parts);
    var d := DropLeadingEmpty(PlainContents(parts));
    if d != [] { JoinOfNonEmptyHead(d, BlankLine); }
  }

  /** The clean-up applied to folded HTML: strip the markup, merge blank lines, turn tabs and `&nbsp;`
      into spaces, merge runs of spaces, decode entities (in that order). */
  function SanitizeHtml(html: string, env: Collaborators): string {
    env.decodeEntities(env.mergeSpaces(env.tabsAndNbspToSpace(env.mergeBlankLines(env.stripTags(html)))))
  }

  /** The clean-up applied to folded plain text: merge blank lines, turn tabs into spaces, merge runs
      of spaces (in that order). */
  function SanitizePlain(plain: string, env: Collaborators): string {
    env.mergeSpaces(env.tabsToSpace(env.mergeBlankLines(plain)))
  }

  /** `fold_text_plain_parts`: the sanitised plain text when some TextPlain part is non-empty, else
      the sanitised HTML text. */
  function FoldTextPlainParts(parts: seq<Part>, env: Collaborators): (r: string)
    ensures AllEmpty(PlainContents(parts))
        ==> r == SanitizeHtml(Text.JoinWith(DropLeadingEmpty(HtmlContents(parts)), BlankLine), env)
    ensures !AllEmpty(PlainContents(parts))
        ==> r == SanitizePlain(Text.JoinWith(DropLeadingEmpty(PlainContents(parts)), BlankLine), env)
  {
    FoldAccumulatorsAreJoins(parts);
    PlainAccumulatorEmpty(parts);
    var (plain, html) := FoldAccumulators(parts);
    if plain == "" then SanitizeHtml(html, env) else SanitizePlain(plain, env)
  }

  /** `fold_text_html_parts`: every HTML content joined by a blank line, then blank lines merged. */
  function FoldTextHtmlParts(parts: seq<Part>, env: Collaborators): string {
    env.mergeNewLines(Text.JoinWith(HtmlContents(parts), BlankLine))
  }

  /** The HTML join agrees with the HTML accumulator of the plain fold when no HTML part is empty. */
  lemma HtmlJoinMatchesAccumulator(parts: seq<Part>, env: Collaborators)
    requires forall i :: 0 <= i < |HtmlContents(parts)| ==> HtmlContents(parts)[i] != ""
    ensures FoldTextHtmlParts(parts, env) == env.mergeNewLines(FoldAccumulators(parts).1)
  {
    FoldAccumulatorsAreJoins(parts);
  }

  /** `fold_text_parts`: the HTML fold exactly when the requested MIME is `"html"`, else the plain fold. */
  function FoldTextParts(parts: seq<Part>, textMime: string, env: Collaborators): (r: string)
    ensures textMime == "html" ==> r == FoldTextHtmlParts(parts, env)
    ensures textMime != "html" ==> r == FoldTextPlainParts(parts, env)
  {
    if textMime == "html" then FoldTextHtmlParts(parts, env) else FoldTextPlainParts(parts, env)
  }

  // ---------------------------------------------------------------------------------------------
  // The overlay rule of `merge_with` and the plain-text replacement of `into_forward`

  /** One overlay part merged in: an attachment is appended; a text part first removes every part of
      its own kind, then is appended. */
  function MergePart(parts: seq<Part>, p: Part): seq<Part> {
    match p
    case Binary(_) => parts + [p]
    case TextPlain(_) => WithoutPlain(parts) + [p]
    case TextHtml(_) => WithoutHtml(parts) + [p]
  }

  /** The overlay's parts merged in one after the other, in the overlay's order. */
  function MergeParts(parts: seq<Part>, overlay: seq<Part>): seq<Part>
    decreases |overlay|
  {
    if overlay == [] then parts
    else MergePart(MergeParts(parts, overlay[..|overlay| - 1]), overlay[|overlay| - 1])
  }

  /** The last element of a non-empty sequence. */
  function Last<T>(s: seq<T>): T
    requires s != []
  {
    s[|s| - 1]
  }

  /** One merged part appends to the attachments when it is one, and otherwise leaves them alone. */
  lemma MergePartAttachments(parts: seq<Part>, p: Part)
    ensures Attachments(MergePart(parts, p)) == Attachments(parts) + Attachments([p])
  {
    ProjectionsOfOne(p);
    match p
    case Binary(_) => AttachmentsOfAppend(parts, [p]);
    case TextPlain(_) =>
      WithoutPlainProjections(parts);
      AttachmentsOfAppend(WithoutPlain(parts), [p]);
    case TextHtml(_) =>
      WithoutHtmlProjections(parts);
      AttachmentsOfAppend(WithoutHtml(parts), [p]);
  }

  /** One merged TextPlain part becomes the only plain text; other parts leave the plain text alone. */
  lemma MergePartPlain(parts: seq<Part>, p: Part)
    ensures PlainContents(MergePart(parts, p)) == if p.TextPlain? then [p.content] else PlainContents(parts)
  {
    ProjectionsOfOne(p);
    match p
    case Binary(_) => PlainContentsOfAppend(parts, [p]);
    case TextPlain(_) =>
      WithoutPlainProjections(parts);
      PlainContentsOfAppend(WithoutPlain(parts), [p]);
    case TextHtml(_) =>
      WithoutHtmlProjections(parts);
      PlainContentsOfAppend(WithoutHtml(parts), [p]);
  }

  /** One merged TextHtml part becomes the only HTML text; other parts leave the HTML text alone. */
  lemma MergePartHtml(parts: seq<Part>, p: Part)
    ensures HtmlContents(MergePart(parts, p)) == if p.TextHtml? then [p.content] else HtmlContents(parts)
  {
    ProjectionsOfOne(p);
    match p
    case Binary(_) => HtmlContentsOfAppend(parts, [p]);
    case TextPlain(_) =>
      WithoutPlainProjections(parts);
      HtmlContentsOfAppend(WithoutPlain(parts), [p]);
    case TextHtml(_) =>
      WithoutHtmlProjections(parts);
      HtmlContentsOfAppend(WithoutHtml(parts), [p]);
  }

  /** After a merge the attachments are the old ones followed by the overlay's, in order. */
  lemma {:induction false} MergedAttachments(parts: seq<Part>, overlay: seq<Part>)
    ensures Attachments(MergeParts(parts, overlay)) == Attachments(parts) + Attachments(overlay)
    decreases |overlay|
  {
    if overlay != [] {
      var init := overlay[..|overlay| - 1];
      var p := overlay[|overlay| - 1];
      assert overlay == init + [p];
      MergedAttachments(parts, init);
      MergePartAttachments(MergeParts(parts, init), p);
      AttachmentsOfAppend(init, [p]);
    }
  }

  /** After a merge the plain text is the overlay's last plain text if it has one, else the old one. */
  lemma {:induction false} MergedPlainContents(parts: seq<Part>, overlay: seq<Part>)
    ensures PlainContents(MergeParts(parts, overlay))
         == if PlainContents(overlay) == [] then PlainContents(parts) else [Last(PlainContents(overlay))]
    decreases |overlay|
  {
    if overlay != [] {
      var init := overlay[..|overlay| - 1];
      var p := overlay[|overlay| - 1];
      assert overlay == init + [p];
      MergedPlainContents(parts, init);
      MergePartPlain(MergeParts(parts, init), p);
      PlainContentsOfAppend(init, [p]);
      ProjectionsOfOne(p);
    }
  }

  /** After a merge the HTML text is the overlay's last HTML text if it has one, else the old one. */
  lemma {:induction false} MergedHtmlContents(parts: seq<Part>, overlay: seq<Part>)
    ensures HtmlContents(MergeParts(parts, overlay))
         == if HtmlContents(overlay) == [] then HtmlContents(parts) else [Last(HtmlContents(overlay))]
    decreases |overlay|
  {
    if overlay != [] {
      var init := overlay[..|overlay| - 1];
      var p := overlay[|overlay| - 1];
      assert overlay == init + [p];
      MergedHtmlContents(parts, init);
      MergePartHtml(MergeParts(parts, init), p);
      HtmlContentsOfAppend(init, [p]);
      ProjectionsOfOne(p);
    }
  }

  /** The number of attachments after a merge is the sum of both. */
  lemma MergePartsAttachmentCount(parts: seq<Part>, overlay: seq<Part>)
    ensures |Attachments(MergeParts(parts, overlay))| == |Attachments(parts)| + |Attachments(overlay)|
  {
    MergedAttachments(parts, overlay);
  }

  /** An overlay holding one TextPlain part leaves exactly that plain text, whatever was there. */
  lemma MergeOnePlainPart(parts: seq<Part>, overlay: seq<Part>, text: string)
    requires PlainContents(overlay) == [text]
    ensures PlainContents(MergeParts(parts, overlay)) == [text]
  {
    MergedPlainContents(parts, overlay);
  }

  /** `Parts::replace_text_plain_parts_with` (defined outside the modelled file; taken as: remove every
      TextPlain part, then append the new one). */
  function ReplaceTextPlainPartsWith(parts: seq<Part>, content: string): (r: seq<Part>)
    ensures PlainContents(r) == [content]
    ensures HtmlContents(r) == HtmlContents(parts)
    ensures Attachments(r) == Attachments(parts)
  {
    WithoutPlainProjections(parts);
    ProjectionsOfAppend(WithoutPlain(parts), [TextPlain(content)]);
    ProjectionsOfOne(TextPlain(content));
    WithoutPlain(parts) + [TextPlain(content)]
  }
}
