# The message entity of himalaya, in Dafny

This project models `Msg`, the message entity of the himalaya e-mail client
(`src/domain/msg/msg_entity.rs`), and proves what its operations do:

- turning a message into a reply or a forward (`into_reply`, `into_forward`);
- overlaying one message on another (`merge_with`);
- appending attachments (`add_attachments`) and setting encryption (`encrypt`);
- writing a message as an editable text template (`to_tpl`) and reading a template back into a
  message (`from_tpl`), and the edit cycle that chains the two;
- folding the text parts into one body (`fold_text_plain_parts`, `fold_text_html_parts`,
  `fold_text_parts`) and listing the attachments (`attachments`);
- parsing and converting address lists (`parse_addr`, `parse_addrs`, `to_addrs`, `to_some_addrs`)
  and choosing the envelope's sender and recipients.

Layout, one module per file:

- `wrappers.dfy` (`Wrappers`): `Option` and `Result`.
- `externals.dfy` (`Externals`): the mailbox, date and account types, the failures, and the foreign
  functions the code calls. Those functions are the `Collaborators` record:
  - mailbox parsing and display (lettre);
  - date formatting (chrono);
  - the HTML and regular-expression clean-up steps;
  - UTF-8 decoding.
  Most proofs hold whatever these functions compute. The round-trip lemmas assume more, and each
  states the assumption as a `requires`:
  - that every address list shows back as itself (`Addresses.ShowsBack`), in
    `Addresses.DisplayThenParse`, `Template.TemplateAddressesParse`, `Template.TemplateFields`,
    `Template.TemplateRoundTrip` and `Message.EditRoundTrip`;
  - that the mailbox parser rejects the empty string, in `Addresses.EmptyValueIsAnError` and
    `Template.EmptyToHeaderFails`;
  - that the template's headers are parsed as written (`Template.ParsedAs`) and its body decodes,
    in `Template.TemplateRoundTrip` and `Message.EditRoundTrip`;
  - that the body decodes to the text `to_tpl` wrote, in `Message.EditBodyGainsSignature`.
- `text.dfy` (`Text`): the standard-library string operations the code relies on:
  - `trim`, `starts_with`, `split(',')`, `join`, `lines`;
  - the lower-casing of header keys.
- `parts.dfy` (`Parts`): the parts of a message, the folds, and the overlay rule of `merge_with`.
- `addresses.dfy` (`Addresses`):
  - the comma-split address parser and the display of address lists;
  - the conversion of fetched addresses and the envelope parties.
- `reply.dfy` (`Reply`): what `into_reply` computes (recipients, subject, attribution, quoting).
- `forward.dfy` (`Forward`): the body `into_forward` writes.
- `template.dfy` (`Template`): the headers and body of a template, and how headers are read back.
- `msg.dfy` (`Message`): the `Msg` class itself.
  - Its fields are updated in place by methods.
  - Each method is proved against a function of the message state (`MsgValue`).
  - The lemmas relating the operations sit at the end.

The loops of the source are methods with loops, proved equal to the specification
functions:
- `Message.WriteReplyBody`, the quoting loop;
- `Addresses.PushAddrs`, the address lists of a forward;
- `Message.ReadHeaders`, the header loop of `from_tpl`;
- `Addresses.ParseAddrs` and `Addresses.ToAddrs`;
- `Message.MergePartsOneByOne`, the parts loop of `merge_with`;
- the attachment loop inside `Message.Msg.AddAttachments`.

## Model

| member | source | states |
|---|---|---|
| Message.Msg.Default | src/domain/msg/msg_entity.rs:38-66 | `Msg::default()`: sequence number 0, no flags, empty subject, every optional field absent, no parts, not encrypted |
| Message.Msg.Encrypt | src/domain/msg/msg_entity.rs:415-418 | sets the encryption flag to the argument and changes no other field |
| Message.Msg.AddAttachments | src/domain/msg/msg_entity.rs:420-441 | appends one binary part per loaded attachment, in order, up to the first load that fails; the result is that failure, or the message when none fails |
| Message.LoadedParts | src/domain/msg/msg_entity.rs:421-439 | the appended parts are binary parts of the successful loads, a prefix of the loads, and stop only at a failed load |
| Message.FirstLoadError | src/domain/msg/msg_entity.rs:421-430 | absent exactly when every load succeeds; otherwise it is the failure of the load just after the appended ones |
| Message.LoadedAttachments | src/domain/msg/msg_entity.rs:420-441 | the attachments added are the loaded files in order; all of them when no load fails |
| Message.AddedAttachments | src/domain/msg/msg_entity.rs:420-441 | after `add_attachments` the attachments are the old ones followed by the loaded ones; with no failure their number grows by the number of paths |
| Message.Msg.MergeWith | src/domain/msg/msg_entity.rs:443-477 | each of `from`, `to`, `cc`, `bcc` the overlay has replaces the message's; a non-empty overlay subject replaces the subject; the overlay's parts are merged in one by one; nothing else changes |
| Message.MergePartsOneByOne | src/domain/msg/msg_entity.rs:463-476 | the parts loop of `merge_with` gives the parts the overlay rule defines |
| Message.MergedContents | src/domain/msg/msg_entity.rs:443-477 | after a merge: each of `from`, `to`, `cc`, `bcc` is the overlay's exactly when the overlay has one (an empty list included), else the old one; the subject is the overlay's when non-empty, else the old one; the attachments are both messages' in order; the plain and the HTML text are the overlay's last ones when it has any, else the old ones; `reply_to`, the ids, the date, the flags and `encrypt` are kept |
| Message.MergeDefaultIsIdentity | src/domain/msg/msg_entity.rs:443-477 | merging a default message in changes nothing |
| Parts.MergePartAttachments | src/domain/msg/msg_entity.rs:464-465 | merging one part in appends its attachment, if it is one, after the existing attachments |
| Parts.MergePartPlain | src/domain/msg/msg_entity.rs:466-469 | a merged plain-text part becomes the only plain text; other parts leave the plain text alone |
| Parts.MergePartHtml | src/domain/msg/msg_entity.rs:470-473 | a merged HTML part becomes the only HTML text; other parts leave the HTML alone |
| Parts.MergedAttachments | src/domain/msg/msg_entity.rs:463-476 | the attachments after a merge are the old ones followed by the overlay's |
| Parts.MergedPlainContents | src/domain/msg/msg_entity.rs:463-476 | the plain text after a merge is the overlay's last plain text if it has one, else the old plain text |
| Parts.MergedHtmlContents | src/domain/msg/msg_entity.rs:463-476 | the HTML text after a merge is the overlay's last HTML text if it has one, else the old HTML text |
| Parts.MergePartsAttachmentCount | src/domain/msg/msg_entity.rs:463-476 | a merge never loses or duplicates an attachment: the counts add up |
| Parts.MergeOnePlainPart | src/domain/msg/msg_entity.rs:466-469 | an overlay with one plain text leaves exactly that plain text |
| Parts.WithoutPlainProjections | src/domain/msg/msg_entity.rs:467 | removing the plain parts leaves no plain text and keeps the HTML and the attachments |
| Parts.WithoutHtmlProjections | src/domain/msg/msg_entity.rs:471 | removing the HTML parts leaves no HTML and keeps the plain text and the attachments |
| Parts.Attachments | src/domain/msg/msg_entity.rs:69-77 | the attachments are never more than the parts |
| Parts.AttachmentsAreBinaryParts | src/domain/msg/msg_entity.rs:69-77 | an attachment is listed exactly when a binary part holds it |
| Parts.AttachmentsOfAppend | src/domain/msg/msg_entity.rs:69-77 | the attachments of two runs of parts are those of the first followed by those of the second |
| Parts.FoldAccumulatorsAreJoins | src/domain/msg/msg_entity.rs:83-101 | the two accumulators of the fold are the plain and the HTML contents joined by a blank line, leading empty contents dropped |
| Parts.GlueFoldIsJoin | src/domain/msg/msg_entity.rs:86-95 | one step with the "glue only when non-empty" rule extends that join by one content |
| Parts.PlainAccumulatorEmpty | src/domain/msg/msg_entity.rs:102 | the plain accumulator is empty exactly when every plain part is empty or there is none |
| Parts.FoldTextPlainParts | src/domain/msg/msg_entity.rs:82-146 | with some non-empty plain text, the sanitised join of the plain contents; otherwise the sanitised join of the HTML contents |
| Parts.HtmlJoinMatchesAccumulator | src/domain/msg/msg_entity.rs:149-164 | the HTML fold is the join of every HTML content with newlines merged, the same join the plain fold accumulates when no HTML part is empty |
| Parts.FoldTextParts | src/domain/msg/msg_entity.rs:168-174 | the HTML fold exactly when the MIME is "html", the plain fold otherwise |
| Message.Msg.IntoReply | src/domain/msg/msg_entity.rs:176-256 | fails with the account address, leaving the message as it was, when that address does not parse; otherwise the message becomes its reply |
| Message.ReplyValue | src/domain/msg/msg_entity.rs:179-253 | computes the reply's new state field by field |
| Message.ReplyHeaders | src/domain/msg/msg_entity.rs:179-216 | a reply has no message id or in-reply-to and is from the account alone; its subject starts with "Re:"; its recipients never include the account; a single reply has one recipient and no copies; a reply to all keeps the copies and every other `reply_to` address; without `reply_to` it has no recipient; the other fields are kept |
| Message.ReplySubjectIdempotent | src/domain/msg/msg_entity.rs:214-216 | replying to a reply does not add a second "Re:" |
| Message.ReplyQuotesEverything | src/domain/msg/msg_entity.rs:219-253 | the reply's one part is the attribution line, then every line of the trimmed plain text quoted, joined by newlines; without `reply_to` the attribution names the account |
| Message.WriteReplyBody | src/domain/msg/msg_entity.rs:236-250 | the quoting loop writes the attribution, then each quoted line with newlines between them, up to the first line equal to the signature delimiter |
| Message.QuoteOneMore | src/domain/msg/msg_entity.rs:243-247 | one loop step appends the glue and the next quoted line to the join so far |
| Reply.ReplyRecipients | src/domain/msg/msg_entity.rs:188-205 | the recipients never include the account address; a single reply has exactly one recipient or none; a reply to all has a list exactly when `reply_to` or `from` has one |
| Reply.WithoutKeepsOthers | src/domain/msg/msg_entity.rs:197 | the filter keeps exactly the addresses other than the account's |
| Reply.WithoutAppend | src/domain/msg/msg_entity.rs:197 | filtering two runs of addresses is filtering each |
| Reply.WithoutAbsent | src/domain/msg/msg_entity.rs:197 | the filter changes nothing when the account address is not in the list |
| Reply.SingleReplyTakesFirstOther | src/domain/msg/msg_entity.rs:202-204 | a single reply goes to the first address that is not the account's; there is none exactly when every address is the account's |
| Reply.ReplyWithoutReplyToHasNoRecipient | src/domain/msg/msg_entity.rs:186-204 | with no `reply_to`, `to` becomes absent (single reply) or empty (reply to all), because `from` is already the account when the recipients are chosen |
| Reply.ReplyAllKeepsReplyTo | src/domain/msg/msg_entity.rs:199-200 | a reply to all goes to every `reply_to` address but the account's, in order |
| Reply.Prefixed | src/domain/msg/msg_entity.rs:214-216 | the result starts with the marker; a subject that already does is kept; any other gets the marker and a space in front |
| Reply.PrefixedIdempotent | src/domain/msg/msg_entity.rs:214-216 | prefixing twice is prefixing once |
| Reply.SenderName | src/domain/msg/msg_entity.rs:225-235 | the first address of `reply_to` (else of `from`) by display name or e-mail; "unknown sender" when that list is absent or empty |
| Reply.QuoteLine | src/domain/msg/msg_entity.rs:244-246 | a quoted line starts with '>'; one more '>' for a line that already starts with '>', "> " otherwise |
| Reply.QuoteAll | src/domain/msg/msg_entity.rs:239-248 | every line quoted, in order |
| Reply.UntilDelimiter | src/domain/msg/msg_entity.rs:239-242 | the lines before the first delimiter line: a prefix with no delimiter in it, followed by a delimiter or the end |
| Reply.UntilDelimiterUnique | src/domain/msg/msg_entity.rs:239-242 | that prefix is the only one with those properties |
| Reply.QuotedBodyLines | src/domain/msg/msg_entity.rs:239-248 | read back line by line, the quoted body is the quoted lines, each starting with '>' |
| Reply.DelimiterWithNewlineNeverStops | src/domain/msg/msg_entity.rs:239-242 | a delimiter holding a newline never equals a line, so the loop never stops early |
| Reply.ReplyQuotesSignature | src/domain/msg/msg_entity.rs:239-248 | with the signature delimiter "-- \n" the reply quotes the whole body, signature included |
| Message.Msg.IntoForward | src/domain/msg/msg_entity.rs:258-322 | fails with the account address, leaving the message as it was, when that address does not parse; otherwise the message becomes its forward |
| Message.ForwardValue | src/domain/msg/msg_entity.rs:261-319 | computes the forward's new state field by field |
| Message.ForwardContents | src/domain/msg/msg_entity.rs:258-322 | a forward is from the account, to an empty list, with no copies, no ids, `reply_to` untouched and a subject starting with "Fwd:"; it keeps the attachments and the HTML; its one plain text reads back as the original header block followed by the original text |
| Message.WriteForwardBody | src/domain/msg/msg_entity.rs:290-317 | the writes build the banner, subject, date, sender and recipient lines, a blank line and the original text |
| Message.WriteAddrLine | src/domain/msg/msg_entity.rs:296-315 | an address line is written exactly when the list is present |
| Addresses.PushAddrs | src/domain/msg/msg_entity.rs:298-303 | the glue loop writes the shown addresses joined by ", " |
| Forward.ForwardBodyIsHeaderBlock | src/domain/msg/msg_entity.rs:290-317 | the forward body is its header block, each line ended by a newline, then the original text |
| Forward.ForwardBodyLines | src/domain/msg/msg_entity.rs:290-317 | read back line by line, the body is the header block (one line per present field) then the lines of the original text, as long as no shown value spans lines |
| Forward.HeaderBlockOneLineEach | src/domain/msg/msg_entity.rs:291-315 | no line of the header block holds a newline when no shown value does |
| Forward.OpeningOneLineEach | src/domain/msg/msg_entity.rs:291-292 | the banner and subject lines hold no newline when the subject holds none |
| Forward.BannerOneLine | src/domain/msg/msg_entity.rs:291 | the banner is one line |
| Forward.OpeningLines | src/domain/msg/msg_entity.rs:291-292 | the opening writes are exactly these lines, each followed by a newline |
| Forward.OptionalLine | src/domain/msg/msg_entity.rs:293-315 | a field line is present exactly when the field has a value |
| Parts.ReplaceTextPlainPartsWith | src/domain/msg/msg_entity.rs:318-319 | after the replacement the plain text is the new content alone; HTML and attachments are kept |
| Message.Msg.ToTpl | src/domain/msg/msg_entity.rs:479-564 | the template is the headers of the message (with overrides), an empty line and the body, written in order; the message is not changed |
| Message.WriteHeader | src/domain/msg/msg_entity.rs:482-539 | one header write appends that header's line to the lines written so far |
| Message.WriteOptionalHeader | src/domain/msg/msg_entity.rs:484-533 | an optional header's line is written exactly when it has a value |
| Message.WriteTplBody | src/domain/msg/msg_entity.rs:544-560 | the body is the override or the folded plain text, then the override signature or else the account's after a blank line, then a newline |
| Template.OptionalHeader | src/domain/msg/msg_entity.rs:484-533 | no header exactly when there is no value |
| Template.TplBody | src/domain/msg/msg_entity.rs:544-560 | the template body always ends with a newline |
| Template.HeaderLines | src/domain/msg/msg_entity.rs:482-539 | one "key: value" line per header, in order |
| Template.PushHeader | src/domain/msg/msg_entity.rs:482-539 | writing one more header line after the others |
| Template.PushSeparator | src/domain/msg/msg_entity.rs:541-542 | writing the empty line that ends the headers |
| Template.RenderLines | src/domain/msg/msg_entity.rs:479-564 | read back line by line, a template is its non-empty header lines, the empty line, then the body lines, as long as no key or value spans lines |
| Template.TemplateEdges | src/domain/msg/msg_entity.rs:482-560 | a template opens with the content-type line and ends with a newline |
| Message.Msg.FromTpl | src/domain/msg/msg_entity.rs:566-626 | fails with the first header that does not decode or whose address list does not parse, else with a body that is not UTF-8; otherwise a new message holding the fields read from the headers and the body as its one plain part |
| Message.ReadHeaders | src/domain/msg/msg_entity.rs:574-612 | the header loop fails exactly when some header fails, with the first failure; otherwise it yields the fields read from all the decoded headers |
| Message.ReadRawHeader | src/domain/msg/msg_entity.rs:575-611 | one header fails exactly when its value is not UTF-8 or it is an address header that does not parse; otherwise the field its lower-cased key names takes its trimmed value |
| Template.HeaderFailure | src/domain/msg/msg_entity.rs:579-607 | a value that is not UTF-8 fails with the key; any other failure belongs to an address header and names its key |
| Template.HeadersFailure | src/domain/msg/msg_entity.rs:574-612 | no failure exactly when every header reads |
| Template.HeadersFailureAt | src/domain/msg/msg_entity.rs:574-612 | the failure reported is that of the first header that fails |
| Template.TemplateFailure | src/domain/msg/msg_entity.rs:574-618 | no failure exactly when every header reads and the body is UTF-8 |
| Template.DecodedHeaders | src/domain/msg/msg_entity.rs:579-581 | each header's value decoded and trimmed, one per header |
| Template.DecodedHeadersSnoc | src/domain/msg/msg_entity.rs:574-581 | decoding one more header that decodes extends the decoded headers by it |
| Template.LastValue | src/domain/msg/msg_entity.rs:587-609 | the value read for a key comes from a header with that key; none exactly when no header has it |
| Template.LastValueAppend | src/domain/msg/msg_entity.rs:574-612 | later headers win over earlier ones |
| Template.LastValueSnoc | src/domain/msg/msg_entity.rs:587-609 | one more header sets the value of its own key and no other |
| Template.ReadFieldsSnoc | src/domain/msg/msg_entity.rs:587-609 | reading one more header, as the loop does, gives the fields of the longer run of headers |
| Template.AddrFieldSnoc | src/domain/msg/msg_entity.rs:593-607 | one more address header sets its list, parsed |
| Template.UnknownKeyIgnored | src/domain/msg/msg_entity.rs:609 | a header with any other key changes no field |
| Template.KeyCaseIgnored | src/domain/msg/msg_entity.rs:587 | keys that differ only in case read the same |
| Template.DecodedAsWritten | src/domain/msg/msg_entity.rs:574-581 | headers parsed as written decode to the written ones, trimmed, and all read when their address values parse |
| Template.TemplateLastValue | src/domain/msg/msg_entity.rs:479-539 | in a template written without overrides, each key reads as the value written for it, trimmed |
| Template.TemplateAddressesParse | src/domain/msg/msg_entity.rs:496-533 | every address header of such a template parses, when the lists show back and the account address parses |
| Template.TemplateFields | src/domain/msg/msg_entity.rs:479-612 | the fields read from such a template are the message's in-reply-to, subject, `to`, `cc`, `bcc` (trimmed), the account address as `from`, and no message id or `reply_to` |
| Template.TemplateRoundTrip | src/domain/msg/msg_entity.rs:479-612 | a template written without overrides reads back without failure, as those fields |
| Template.EmptyToHeaderFails | src/domain/msg/msg_entity.rs:496-507 | a message without recipients gets an empty `To` header, which the address parser rejects, so its template cannot be read back |
| Message.EditRoundTrip | src/domain/msg/msg_entity.rs:324-328 | editing a message with non-empty recipients yields its recipients, trimmed subject and in-reply-to, the account as sender, and the edited body as its one part |
| Message.EditBodyGainsSignature | src/domain/msg/msg_entity.rs:544-621 | when the template body comes back as written, the message read from it has one plain part: the folded text, a blank line and the account's signature, then a newline; merged back, that text replaces the plain text, keeps the HTML and the attachments, and differs from the folded text |
| Addresses.ParseAddr | src/domain/msg/msg_entity.rs:834-840 | succeeds exactly when the trimmed string is a mailbox; the error names the untrimmed string |
| Addresses.ParseEach | src/domain/msg/msg_entity.rs:843-847 | succeeds exactly when every piece parses; the result has one address per piece, each the piece parsed |
| Addresses.ParseEachFirstFailure | src/domain/msg/msg_entity.rs:843-847 | the error is the first failing piece, wrapped with the whole value |
| Addresses.ParseEachOk | src/domain/msg/msg_entity.rs:843-847 | when every piece parses the result is exactly the parsed pieces |
| Addresses.ParsedAddrs | src/domain/msg/msg_entity.rs:842-849 | succeeds exactly when every comma-separated piece parses; the list then has one more address than there are commas, so it is never absent |
| Addresses.ParseAddrs | src/domain/msg/msg_entity.rs:842-849 | the push loop computes `ParsedAddrs` |
| Addresses.EmptyValueIsAnError | src/domain/msg/msg_entity.rs:842-849 | an empty value fails, because it splits into one empty piece |
| Addresses.ShowAll | src/domain/msg/msg_entity.rs:497-506 | each address shown, in order |
| Addresses.DisplayThenParse | src/domain/msg/msg_entity.rs:497-506 | a displayed non-empty list parses back to itself when every address shows back |
| Addresses.ConvertAll | src/domain/msg/msg_entity.rs:879-885 | succeeds exactly when every address converts, giving the converted addresses in order |
| Addresses.ConvertAllFirstFailure | src/domain/msg/msg_entity.rs:879-885 | the error is that of the first address that does not convert |
| Addresses.ToAddrs | src/domain/msg/msg_entity.rs:879-885 | the push loop computes `ConvertAll` |
| Addresses.ToSomeAddrs | src/domain/msg/msg_entity.rs:887-892 | an absent list stays absent; a present one converts exactly when each address does, keeping its length |
| Message.EnvelopeOfReplyAndForward | src/domain/msg/msg_entity.rs:714-727 | the envelope of a reply or a forward is sent from the account's e-mail; a forward has no envelope recipient; a reply goes to the e-mails of its recipients, and to nobody when the message had no `reply_to` |
| Addresses.EnvelopeParties | src/domain/msg/msg_entity.rs:714-727 | the sender is the e-mail of the first `from` address, present exactly when there is one; the recipients are the e-mails of `to`, in order, none when it is absent |
| Text.TrimStart | src/domain/msg/msg_entity.rs:580 | no leading whitespace is left and the string ends as before |
| Text.TrimEnd | src/domain/msg/msg_entity.rs:580 | no trailing whitespace is left and the string starts as before |
| Text.TrimStartDropsWhitespace | src/domain/msg/msg_entity.rs:580 | `trim_start` keeps a suffix and drops only whitespace |
| Text.TrimEndDropsWhitespace | src/domain/msg/msg_entity.rs:580 | `trim_end` keeps a prefix and drops only whitespace |
| Text.Trim | src/domain/msg/msg_entity.rs:580 | no whitespace at either end, never longer |
| Text.TrimIdentity | src/domain/msg/msg_entity.rs:836-837 | trimming leaves a string without edge whitespace unchanged |
| Text.TrimIdempotent | src/domain/msg/msg_entity.rs:836-837 | trimming twice is trimming once |
| Text.JoinWithSnoc | src/domain/msg/msg_entity.rs:298-303 | a glue loop extends the join by the glue and one piece |
| Text.JoinWithEdges | src/domain/msg/msg_entity.rs:149-158 | a join starts with its first piece and ends with its last |
| Text.Split | src/domain/msg/msg_entity.rs:844 | never empty, and no piece holds the separator |
| Text.SplitCount | src/domain/msg/msg_entity.rs:844 | one more piece than separators |
| Text.JoinSplit | src/domain/msg/msg_entity.rs:844 | joining the pieces with the separator gives the string back |
| Text.SplitJoin | src/domain/msg/msg_entity.rs:844 | splitting undoes joining when no piece holds the separator |
| Text.SplitWithoutSep | src/domain/msg/msg_entity.rs:844 | a string without the separator is one piece |
| Text.SplitAfterPiece | src/domain/msg/msg_entity.rs:844 | a leading piece then the separator splits off as one piece |
| Text.TerminatedAppend | src/domain/msg/msg_entity.rs:290-316 | newline-terminated writes of two runs of lines are the writes of both together |
| Text.SplitTerminated | src/domain/msg/msg_entity.rs:290-317 | newline-terminated lines free of newlines, then any text, split back into those lines then the text's pieces |
| Text.Lines | src/domain/msg/msg_entity.rs:239 | no line holds a newline; no lines exactly for the empty string |
| Text.IndexOf | src/domain/msg/msg_entity.rs:239 | the first occurrence of the character |
| Text.ToLowerAscii | src/domain/msg/msg_entity.rs:587 | each character lower-cased, length kept |
| Template.RenderedKeys | src/domain/msg/msg_entity.rs:482-539 | the keys the template writes lower-case to the keys the reader matches |

## Left out

- `edit_with_editor` and `_edit_with_editor` (the editor session, its choices, sending and saving)
  are I/O. The edit cycle they run (`to_tpl` then `from_tpl`) is `Message.EditRoundTrip` for the
  headers and `Message.EditBodyGainsSignature` for the body.
- `into_sendable_msg` builds a `lettre` message. The `lettre` builder is outside this model.
- `TryFrom<(&Account, &Fetch)>` for `Msg` and `to_addr` decode IMAP fetch data and RFC 2047 words.
  - They are not modelled; `to_addr` is the function parameter of `Addresses.ToAddrs`.
  - The envelope's `Envelope::new` validation is not modelled either: `Addresses.EnvelopeParties`
    only chooses sender and recipients.
- `mailparse::parse_mail`:
  - `Message.Msg.FromTpl` takes the parser's headers (key and raw value bytes) and raw body;
  - a template the parser rejects is not modelled.
- The foreign computations are parameters (`Collaborators`) and are not re-implemented:
  - mailbox parsing and display;
  - date formatting;
  - the HTML sanitiser;
  - the regular-expression clean-ups;
  - HTML entity decoding;
  - UTF-8 decoding.
- The other entities are not part of this model:
  - the `Account` configuration and the `DEFAULT_SIG_DELIM` constant (`src/config`);
  - `Parts::replace_text_plain_parts_with` and the `Flags` type (elsewhere in `src/domain/msg`).
- Modelling choices for those entities:
  - the delimiter is taken as `"-- \n"`;
  - `replace_text_plain_parts_with` is taken as "remove every plain part, then append the new one"
    (`Parts.ReplaceTextPlainPartsWith`);
  - flags are a set.
- Message.Msg.AddAttachments:
  - shell expansion, reading the file and MIME sniffing come in as one loaded result per path;
  - `add_attachments` consumes the message, so after a failure nothing of it is observable; the
    model keeps the attachments appended before the failure.
- Message.Msg.IntoReply and Message.Msg.IntoForward:
  - the source consumes the message and returns it, or drops it on failure;
  - the model updates it in place and leaves it unchanged on failure.
- Message.Msg.IntoReply and Message.Msg.IntoForward:
  - they compute the new state first and write it through small setters (`SetValue`, `SetFields`,
    `SetAddresses`), rather than assigning field by field;
  - the resulting state is the one the source's assignments produce.
- Message.Msg.FromTpl:
  - its header loop (`Message.ReadHeaders`) reads into a `Fields` value that is written to the new
    message once, rather than assigning the message's fields header by header;
  - on a failure the source drops the message, so the outcome is the same.
- Text.ToLowerAscii: header keys are lower-cased in ASCII, where Rust's `to_lowercase` is Unicode.
  - The key matching is the same: only U+212A (Kelvin sign) lowercases to an ASCII letter, `k`;
    none of the matched keys contains `k`.
- Text.Lines:
  - Rust's `lines` on a trimmed string: pieces end at `\n`, with a `\r` before it dropped;
  - a bare `\r` is kept.
- Addresses.ConvertAll: the error is the conversion failure of the first failing address. The
  source also adds that address's debug text (`{:?}` of the IMAP address) as context; that
  formatting belongs to the IMAP library and is not modelled.
- The `id` (`u32`) is copied, never computed, so no wrap-around arises.

## Behaviour as written

These properties of the code as written are proved, not corrected:

- `into_reply` sets `in_reply_to` from `message_id` after clearing it, so a reply never carries
  `In-Reply-To` (`Message.ReplyHeaders`).
- `into_reply` sets `from` to the account before choosing the recipients:
  - a message without `reply_to` is answered to nobody
    (`Reply.ReplyWithoutReplyToHasNoRecipient`);
  - its attribution names the account.
- The signature delimiter ends with a newline, and no line does, so the quoting never stops at a
  signature (`Reply.ReplyQuotesSignature`).
- `parse_addrs` never returns an absent list, and an empty value is an error
  (`Addresses.ParsedAddrs`, `Addresses.EmptyValueIsAnError`).
  - So a template of a message without recipients cannot be read back
    (`Template.EmptyToHeaderFails`).
- `to_tpl` writes the account address as `From` and never the message's own `from`
  (`Template.TplHeaders` has no such input).
- `from_tpl` keeps the whole template body as the plain text, and `to_tpl` writes the signature and
  a newline after the folded text. So each edit cycle adds the signature and a newline to the
  plain text, and the body does not come back as it was (`Message.EditBodyGainsSignature`).
- A display name holding a comma does not survive the template round trip: `Addresses.ShowsBack`
  excludes it.
