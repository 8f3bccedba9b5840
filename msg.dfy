/** The message entity `Msg`: its fields, and the operations that rewrite it in place (reply,
    forward, merge, attachments, encryption) or turn it into a template and back. Each method is
    specified by a function of the message's state, `MsgValue`, about which the lemmas below and
    the lemmas of `Reply`, `Forward`, `Template` and `Parts` state what the source promises. */
module Message {
  import opened Wrappers
  import opened Externals
  import Text
  import Parts
  import Addresses
  import Reply
  import Forward
  import Template

  /** The state of a message, field by field. */
  datatype MsgValue = MsgValue(
    id: u32,
    flags: set<Flag>,
    subject: string,
    from: Option<seq<Addr>>,
    replyTo: Option<seq<Addr>>,
    to: Option<seq<Addr>>,
    cc: Option<seq<Addr>>,
    bcc: Option<seq<Addr>>,
    inReplyTo: Option<string>,
    messageId: Option<string>,
    date: Option<DateTime>,
    parts: seq<Parts.Part>,
    encrypt: bool)

  /** `Msg::default()`: sequence number 0, no flags, empty subject, every optional field absent,
      no parts, not encrypted. */
  const DefaultValue: MsgValue := MsgValue(0, {}, "", None, None, None, None, None, None, None, None, [], false)

  // ---------------------------------------------------------------------------------------------
  // Specifications of the operations

  /** The account address, parsed (`account.address().parse()`): `None` when it is not an address. */
  function AccountAddr(account: Account, env: Collaborators): Option<Addr> {
    env.parseMailbox(account.address)
  }

  /** The message `into_reply` makes, with `me` the parsed account address. The recipients and the
      sender of the attribution line are chosen after `from` has become `[me]`. */
  function Replied(m: MsgValue, all: bool, me: Addr, env: Collaborators): MsgValue {
    var from := Some([me]);
    m.(messageId := None,
       inReplyTo := None,
       from := from,
       to := Reply.ReplyRecipients(m.replyTo, from, me, all),
       cc := if all then m.cc else None,
       bcc := if all then m.bcc else None,
       subject := Reply.Prefixed(m.subject, "Re:"),
       parts := [Parts.TextPlain(ReplyText(m, me, env))])
  }

  /** The body of the reply: the attribution line names the date and the first address of `reply_to`,
      or else of the new `from`, `[me]`; then the plain text of the message, quoted. */
  function ReplyText(m: MsgValue, me: Addr, env: Collaborators): string {
    Reply.ReplyBody(Reply.DateText(m.date, env), Reply.SenderName(m.replyTo, Some([me])),
                    Parts.FoldTextParts(m.parts, "plain", env))
  }

  /** The message `into_forward` makes, with `me` the parsed account address. */
  function Forwarded(m: MsgValue, me: Addr, env: Collaborators): MsgValue {
    var body := Forward.ForwardBody(m.subject, m.date, m.replyTo.Or(m.from), m.to,
                                    Parts.FoldTextParts(m.parts, "plain", env), env);
    m.(messageId := None,
       inReplyTo := None,
       from := Some([me]),
       to := Some([]),
       cc := None,
       bcc := None,
       subject := Reply.Prefixed(m.subject, "Fwd:"),
       parts := Parts.ReplaceTextPlainPartsWith(m.parts, body))
  }

  /** The message `merge_with` makes of `m` and `overlay`: each address list and the subject the
      overlay has replace the message's; the overlay's parts are merged in. */
  function Merged(m: MsgValue, overlay: MsgValue): MsgValue {
    m.(from := overlay.from.Or(m.from),
       to := overlay.to.Or(m.to),
       cc := overlay.cc.Or(m.cc),
       bcc := overlay.bcc.Or(m.bcc),
       subject := if overlay.subject != "" then overlay.subject else m.subject,
       parts := Parts.MergeParts(m.parts, overlay.parts))
  }

  /** The message `from_tpl` builds: a default message with the fields read from the headers and
      the decoded body as its one plain-text part. */
  function FromFields(f: Template.Fields, body: string): MsgValue {
    DefaultValue.(messageId := f.messageId, inReplyTo := f.inReplyTo, subject := f.subject,
                  from := f.from, to := f.to, replyTo := f.replyTo, cc := f.cc, bcc := f.bcc,
                  parts := [Parts.TextPlain(body)])
  }

  /** The attachments `add_attachments` appends: one binary part per load, in order, up to the
      first load that fails. */
  function LoadedParts(loaded: seq<Result<Parts.BinaryPart, Error>>): (r: seq<Parts.Part>)
    ensures |r| <= |loaded|
    ensures forall i :: 0 <= i < |r| ==> loaded[i].Ok? && r[i] == Parts.Binary(loaded[i].value)
    ensures |r| < |loaded| ==> loaded[|r|].Err?
  {
    if loaded == [] then []
    else match loaded[0]
      case Err(_) => []
      case Ok(b) => [Parts.Binary(b)] + LoadedParts(loaded[1..])
  }

  /** The failure of the first load that fails, if any. */
  function FirstLoadError(loaded: seq<Result<Parts.BinaryPart, Error>>): (r: Option<Error>)
    ensures r.None? <==> forall i :: 0 <= i < |loaded| ==> loaded[i].Ok?
    ensures r.Some? ==> |LoadedParts(loaded)| < |loaded| && r.value == loaded[|LoadedParts(loaded)|].error
  {
    if loaded == [] then None
    else match loaded[0]
      case Err(e) => Some(e)
      case Ok(_) => FirstLoadError(loaded[1..])
  }

  // ---------------------------------------------------------------------------------------------
  // The entity

  /** `Msg`: a message whose fields the operations below rewrite in place. */
  class Msg {
    var id: u32
    var flags: set<Flag>
    var subject: string
    var from: Option<seq<Addr>>
    var replyTo: Option<seq<Addr>>
    var to: Option<seq<Addr>>
    var cc: Option<seq<Addr>>
    var bcc: Option<seq<Addr>>
    var inReplyTo: Option<string>
    var messageId: Option<string>
    var date: Option<DateTime>
    var parts: seq<Parts.Part>
    var encrypt: bool

    /** The current state of every field. */
    function Value(): MsgValue
      reads this
    {
      MsgValue(id, flags, subject, from, replyTo, to, cc, bcc, inReplyTo, messageId, date, parts, encrypt)
    }

    /** `Msg::default()`. */
    constructor Default()
      ensures Value() == DefaultValue
    {
      id := 0;
      flags := {};
      subject := "";
      from := None;
      replyTo := None;
      to := None;
      cc := None;
      bcc := None;
      inReplyTo := None;
      messageId := None;
      date := None;
      parts := [];
      encrypt := false;
    }

    /** `encrypt`: sets whether the message is to be encrypted, and nothing else. */
    method Encrypt(enabled: bool)
      modifies this
      ensures Value() == old(Value()).(encrypt := enabled)
    {
      encrypt := enabled;
    }

    /** `merge_with`: overlays the fields `msg` has on this message and merges its parts in, one
        after the other. */
    method MergeWith(msg: Msg)
      requires msg != this
      modifies this
      ensures Value() == Merged(old(Value()), old(msg.Value()))
    {
      var merged := MergePartsOneByOne(parts, msg.parts);
      SetAddresses(msg.from.Or(from), msg.to.Or(to), replyTo, msg.cc.Or(cc), msg.bcc.Or(bcc));
      if msg.subject != "" {
        subject := msg.subject;
      }
      parts := merged;
    }

    /** `add_attachments`, with each path already expanded and read: appends one binary part per
        load in order, and stops with the failure of the first load that fails, the attachments
        before it already appended. */
    method AddAttachments(loaded: seq<Result<Parts.BinaryPart, Error>>) returns (r: Result<Msg, Error>)
      modifies this
      ensures Value() == old(Value()).(parts := old(parts) + LoadedParts(loaded))
      ensures r == match FirstLoadError(loaded) case Some(e) => Err(e) case None => Ok(this)
    {
      var i := 0;
      while i < |loaded|
        invariant 0 <= i <= |loaded|
        invariant forall k :: 0 <= k < i ==> loaded[k].Ok?
        invariant i <= |LoadedParts(loaded)|
        invariant Value() == old(Value()).(parts := old(parts) + LoadedParts(loaded)[..i])
      {
        match loaded[i] {
          case Err(e) =>
            assert LoadedParts(loaded)[..i] == LoadedParts(loaded);
            return Err(e);
          case Ok(b) =>
            parts := parts + [Parts.Binary(b)];
            assert LoadedParts(loaded)[..i + 1] == LoadedParts(loaded)[..i] + [Parts.Binary(b)];
        }
        i := i + 1;
      }
      assert LoadedParts(loaded)[..i] == LoadedParts(loaded);
      return Ok(this);
    }

    /** `into_reply`: fails with the account address when it does not parse, the message untouched;
        otherwise turns the message into its reply. The quoted body is written line by line,
        stopping at the first line equal to the signature delimiter (`WriteReplyBody`). */
    method IntoReply(all: bool, account: Account, env: Collaborators) returns (r: Result<Msg, Error>)
      modifies this
      ensures AccountAddr(account, env).None? ==>
        r == Err(AddressError(account.address)) && Value() == old(Value())
      ensures AccountAddr(account, env).Some? ==>
        r == Ok(this) && Value() == Replied(old(Value()), all, AccountAddr(account, env).value, env)
    {
      var parsed := AccountAddr(account, env);
      if parsed.None? {
        return Err(AddressError(account.address));
      }
      var v := ReplyValue(Value(), all, parsed.value, env);
      SetValue(v);
      return Ok(this);
    }

    /** Writes every field from `v`. */
    method SetValue(v: MsgValue)
      modifies this
      ensures Value() == v
    {
      SetFields(Template.Fields(v.messageId, v.inReplyTo, v.subject, v.from, v.to, v.replyTo, v.cc, v.bcc));
      id, flags, date, parts, encrypt := v.id, v.flags, v.date, v.parts, v.encrypt;
    }

    /** `into_forward`: fails with the account address when it does not parse, the message
        untouched; otherwise turns the message into its forward, the original subject, date,
        sender and recipients written above the original text. */
    method IntoForward(account: Account, env: Collaborators) returns (r: Result<Msg, Error>)
      modifies this
      ensures AccountAddr(account, env).None? ==>
        r == Err(AddressError(account.address)) && Value() == old(Value())
      ensures AccountAddr(account, env).Some? ==>
        r == Ok(this) && Value() == Forwarded(old(Value()), AccountAddr(account, env).value, env)
    {
      var parsed := AccountAddr(account, env);
      if parsed.None? {
        return Err(AddressError(account.address));
      }
      var v := ForwardValue(Value(), parsed.value, env);
      SetValue(v);
      return Ok(this);
    }

    /** `to_tpl`: the template of the message, header line by header line, then the body and the
        signature; the message is not changed. */
    method ToTpl(opts: Template.TplOverride, account: Account, env: Collaborators) returns (tpl: string)
      ensures tpl == Template.Render(Template.TplHeaders(inReplyTo, to, cc, bcc, subject, opts, account, env),
                                     Template.TplBody(Parts.FoldTextPlainParts(parts, env), opts, account))
    {
      ghost var hs: seq<Template.Header> := [];
      tpl := "";
      tpl := WriteHeader(tpl, hs, Template.ContentType);
      hs := [Template.ContentType];
      tpl := WriteOptionalHeader(tpl, hs, "In-Reply-To", inReplyTo);
      hs := hs + Template.OptionalHeader("In-Reply-To", inReplyTo);

      var fromValue := match opts.from case Some(l) => Text.JoinWith(l, ", ") case None => account.address;
      tpl := WriteHeader(tpl, hs, Template.Header("From", fromValue));
      hs := hs + [Template.Header("From", fromValue)];

      var toValue := Template.Joined(opts.to, to, env).GetOr("");
      tpl := WriteHeader(tpl, hs, Template.Header("To", toValue));
      hs := hs + [Template.Header("To", toValue)];

      var ccValue := Template.Joined(opts.cc, cc, env);
      tpl := WriteOptionalHeader(tpl, hs, "Cc", ccValue);
      hs := hs + Template.OptionalHeader("Cc", ccValue);

      var bccValue := Template.Joined(opts.bcc, bcc, env);
      tpl := WriteOptionalHeader(tpl, hs, "Bcc", bccValue);
      hs := hs + Template.OptionalHeader("Bcc", bccValue);

      var subjectValue := opts.subject.GetOr(subject);
      tpl := WriteHeader(tpl, hs, Template.Header("Subject", subjectValue));
      hs := hs + [Template.Header("Subject", subjectValue)];

      Template.PushSeparator(hs);
      tpl := tpl + "\n";
      assert hs == Template.TplHeaders(inReplyTo, to, cc, bcc, subject, opts, account, env);
      tpl := WriteTplBody(tpl, Parts.FoldTextPlainParts(parts, env), opts, account);
    }

    /** Writes the fields a template sets, and nothing else. */
    method SetFields(f: Template.Fields)
      modifies this
      ensures Value() == WithFields(old(Value()), f)
    {
      messageId, inReplyTo, subject := f.messageId, f.inReplyTo, f.subject;
      SetAddresses(f.from, f.to, f.replyTo, f.cc, f.bcc);
    }

    /** Writes the address lists, and nothing else. */
    method SetAddresses(from': Option<seq<Addr>>, to': Option<seq<Addr>>, replyTo': Option<seq<Addr>>,
                        cc': Option<seq<Addr>>, bcc': Option<seq<Addr>>)
      modifies this
      ensures Value() == old(Value()).(from := from', to := to', replyTo := replyTo', cc := cc', bcc := bcc')
    {
      from, to, replyTo, cc, bcc := from', to', replyTo', cc', bcc';
    }

    /** `from_tpl`, given the headers and the raw body the mail parser finds in a template: a new
        message whose fields are read from the headers, key by key, and whose one part is the body.
        It fails with the first header whose value is not UTF-8 or, for an address header, not an
        address list, and else with a body that is not UTF-8. */
    static method FromTpl(headers: seq<Template.RawHeader>, body: seq<byte>, env: Collaborators)
      returns (r: Result<Msg, Error>)
      ensures r.Err? <==> Template.TemplateFailure(headers, body, env).Some?
      ensures r.Err? ==> r.error == Template.TemplateFailure(headers, body, env).value
      ensures r.Ok? ==> fresh(r.value)
      ensures r.Ok? ==> (r.value.Value()
        == FromFields(Template.ReadFields(Template.DecodedHeaders(headers, env), env), env.decodeUtf8(body).value))
    {
      var read := ReadHeaders(headers, env);
      if read.Err? {
        return Err(read.error);
      }
      var fields := read.value;
      var text := env.decodeUtf8(body);
      if text.None? {
        return Err(BodyDecodeError);
      }
      var msg := new Msg.Default();
      msg.SetFields(fields);
      msg.parts := msg.parts + [Parts.TextPlain(text.value)];
      return Ok(msg);
    }
  }

  method ReplyValue(m: MsgValue, all: bool, me: Addr, env: Collaborators) returns (v: MsgValue)
    ensures v == Replied(m, all, me, env)
  {
    var plain := Parts.FoldTextParts(m.parts, "plain", env);
    var content := WriteReplyBody(Reply.DateText(m.date, env), Reply.SenderName(m.replyTo, Some([me])), plain);
    v := m.(messageId := None, inReplyTo := None, from := Some([me]),
      to := Reply.ReplyRecipients(m.replyTo, Some([me]), me, all),
      cc := if all then m.cc else None, bcc := if all then m.bcc else None,
      subject := Reply.Prefixed(m.subject, "Re:"), parts := [Parts.TextPlain(content)]);
  }

  /** The parts loop of `merge_with`: each part of the overlay in turn either replaces the part of
      the same text kind or, when binary, is appended. */
  method MergePartsOneByOne(base: seq<Parts.Part>, overlay: seq<Parts.Part>) returns (merged: seq<Parts.Part>)
    ensures merged == Parts.MergeParts(base, overlay)
  {
    merged := base;
    var i := 0;
    while i < |overlay|
      invariant 0 <= i <= |overlay|
      invariant merged == Parts.MergeParts(base, overlay[..i])
    {
      var part := overlay[i];
      match part {
        case Binary(_) =>
          merged := merged + [part];
        case TextPlain(_) =>
          merged := Parts.WithoutPlain(merged) + [part];
        case TextHtml(_) =>
          merged := Parts.WithoutHtml(merged) + [part];
      }
      assert overlay[..i + 1][..i] == overlay[..i];
      i := i + 1;
    }
    assert overlay[..i] == overlay;
  }

  /** The new state `into_forward` writes: the headers of a forward and the original parts, each
      plain-text one's content replaced by the body of the forward. */
  method ForwardValue(m: MsgValue, me: Addr, env: Collaborators) returns (v: MsgValue)
    ensures v == Forwarded(m, me, env)
  {
    var content := WriteForwardBody(m.subject, m.date, m.replyTo.Or(m.from), m.to,
                                    Parts.FoldTextParts(m.parts, "plain", env), env);
    v := m.(messageId := None, inReplyTo := None, from := Some([me]), to := Some([]), cc := None,
            bcc := None, subject := Reply.Prefixed(m.subject, "Fwd:"),
            parts := Parts.ReplaceTextPlainPartsWith(m.parts, content));
  }

  /** The body of a forward, written piece by piece: the banner and the original subject, the
      date, sender and recipient lines when there are any, a blank line and the original text. */
  method WriteForwardBody(subject: string, date: Option<DateTime>, from: Option<seq<Addr>>,
                          to: Option<seq<Addr>>, plain: string, env: Collaborators) returns (content: string)
    ensures content == Forward.ForwardBody(subject, date, from, to, plain, env)
  {
    content := "";
    content := content + "\n\n" + Forward.Banner + "\n";
    content := content + "Subject: " + subject + "\n";
    assert content == Forward.Opening(subject);
    if date.Some? {
      content := content + "Date: " + env.rfc2822(date.value) + "\n";
    }
    assert content == Forward.Opening(subject) + Forward.DateLine(date, env);
    content := WriteAddrLine(content, "From: ", from, env);
    content := WriteAddrLine(content, "To: ", to, env);
    content := content + "\n";
    content := content + plain;
  }

  /** One address line of a forward, appended when there are addresses. */
  method WriteAddrLine(content: string, field: string, addrs: Option<seq<Addr>>, env: Collaborators)
    returns (out: string)
    ensures out == content + Forward.AddrLine(field, addrs, env)
  {
    out := content;
    if addrs.Some? {
      out := out + field;
      out := Addresses.PushAddrs(out, addrs.value, env);
      out := out + "\n";
    }
  }

  /** One header line of a template, written after the lines of `hs`. */
  method WriteHeader(tpl: string, ghost hs: seq<Template.Header>, h: Template.Header) returns (out: string)
    requires tpl == Text.Terminated(Template.HeaderLines(hs))
    ensures out == Text.Terminated(Template.HeaderLines(hs + [h]))
  {
    Template.PushHeader(hs, h);
    out := tpl + h.key + ": " + h.value + "\n";
  }

  /** A header line of a template written only when there is a value. */
  method WriteOptionalHeader(tpl: string, ghost hs: seq<Template.Header>, key: string, value: Option<string>)
    returns (out: string)
    requires tpl == Text.Terminated(Template.HeaderLines(hs))
    ensures out == Text.Terminated(Template.HeaderLines(hs + Template.OptionalHeader(key, value)))
  {
    out := tpl;
    if value.Some? {
      out := WriteHeader(out, hs, Template.Header(key, value.value));
    } else {
      assert hs + Template.OptionalHeader(key, value) == hs;
    }
  }

  /** The body of a template after its headers: the override or the plain text, then the
      signature of the override or else of the account, after a blank line, then a newline. */
  method WriteTplBody(head: string, plain: string, opts: Template.TplOverride, account: Account)
    returns (tpl: string)
    ensures tpl == head + Template.TplBody(plain, opts, account)
  {
    tpl := head;
    if opts.body.Some? {
      tpl := tpl + opts.body.value;
    } else {
      tpl := tpl + plain;
    }
    if opts.sig.Some? {
      tpl := tpl + "\n\n";
      tpl := tpl + opts.sig.value;
    } else if account.sig.Some? {
      tpl := tpl + "\n\n";
      tpl := tpl + account.sig.value;
    }
    tpl := tpl + "\n";
  }

  /** The header loop of `from_tpl`: the headers read one by one into the fields, stopping at the
      first one that fails. */
  method ReadHeaders(headers: seq<Template.RawHeader>, env: Collaborators) returns (r: Result<Template.Fields, Error>)
    ensures r.Err? <==> Template.HeadersFailure(headers, env).Some?
    ensures r.Err? ==> r.error == Template.HeadersFailure(headers, env).value
    ensures r.Ok? ==> r.value == Template.ReadFields(Template.DecodedHeaders(headers, env), env)
  {
    var fields := Template.NoFields;
    ghost var seen: seq<Template.Header> := [];
    var i := 0;
    while i < |headers|
      invariant 0 <= i <= |headers|
      invariant Template.HeadersFailure(headers, env) == Template.HeadersFailure(headers[i..], env)
      invariant seen == Template.DecodedHeaders(headers[..i], env)
      invariant fields == Template.ReadFields(seen, env)
    {
      var read := ReadRawHeader(fields, headers[i], env);
      assert headers[i..][0] == headers[i] && headers[i..][1..] == headers[i + 1..];
      if read.Err? {
        return Err(read.error);
      }
      var h := Template.DecodeHeader(headers[i], env).value;
      Template.ReadFieldsSnoc(seen, h, env);
      Template.DecodedHeadersSnoc(headers, i, env);
      fields, seen := read.value, seen + [h];
      i := i + 1;
    }
    assert headers[..i] == headers && headers[i..] == [];
    return Ok(fields);
  }

  /** One header of a template read into the fields read so far: its value decoded and trimmed,
      its key lower-cased, and the field the key names set (an address list parsed first); any
      other key changes nothing. Fails on a value that is not UTF-8 or an address list that does
      not parse. */
  method ReadRawHeader(f: Template.Fields, raw: Template.RawHeader, env: Collaborators)
    returns (r: Result<Template.Fields, Error>)
    ensures r.Err? <==> Template.HeaderFailure(raw, env).Some?
    ensures r.Err? ==> r.error == Template.HeaderFailure(raw, env).value
    ensures r.Ok? ==> Template.DecodeHeader(raw, env).Some?
    ensures r.Ok? ==> r.value == Template.ReadHeader(f, Template.DecodeHeader(raw, env).value, env)
  {
    var decoded := env.decodeUtf8(raw.value);
    if decoded.None? {
      return Err(HeaderValueError(raw.key));
    }
    var val := Text.Trim(decoded.value);
    var key := Text.ToLowerAscii(raw.key);
    var fields := f;
    if key == "message-id" {
      fields := fields.(messageId := Some(val));
    } else if key == "in-reply-to" {
      fields := fields.(inReplyTo := Some(val));
    } else if key == "subject" {
      fields := fields.(subject := val);
    } else if key == "from" || key == "to" || key == "reply-to" || key == "cc" || key == "bcc" {
      var addrs := Addresses.ParseAddrs(val, env);
      if addrs.Err? {
        return Err(HeaderError(raw.key, addrs.error));
      }
      if key == "from" {
        fields := fields.(from := addrs.value);
      } else if key == "to" {
        fields := fields.(to := addrs.value);
      } else if key == "reply-to" {
        fields := fields.(replyTo := addrs.value);
      } else if key == "cc" {
        fields := fields.(cc := addrs.value);
      } else {
        fields := fields.(bcc := addrs.value);
      }
    }
    return Ok(fields);
  }

  /** The body of a reply, written line by line: the attribution line, then each line of the
      trimmed plain text quoted, glued by newlines, up to the first line equal to the signature
      delimiter. */
  method WriteReplyBody(dateText: string, sender: string, plain: string) returns (content: string)
    ensures content == Reply.ReplyBody(dateText, sender, plain)
  {
    content := Reply.Attribution(dateText, sender);
    var lines := Text.Lines(Text.Trim(plain));
    var glue := "";
    var i := 0;
    while i < |lines| && lines[i] != Reply.DefaultSigDelim
      invariant 0 <= i <= |lines|
      invariant forall k :: 0 <= k < i ==> lines[k] != Reply.DefaultSigDelim
      invariant content == Reply.Attribution(dateText, sender) + Text.JoinWith(Reply.QuoteAll(lines[..i]), "\n")
      invariant glue == if i == 0 then "" else "\n"
    {
      QuoteOneMore(lines, i, Reply.Attribution(dateText, sender), content, glue);
      content := content + glue;
      content := content + ">";
      content := content + (if Text.StartsWith(lines[i], ">") then "" else " ");
      content := content + lines[i];
      glue := "\n";
      i := i + 1;
    }
    Reply.UntilDelimiterUnique(lines, Reply.DefaultSigDelim, i);
  }

  /** A message with the fields a template sets taken from `f`. */
  function WithFields(m: MsgValue, f: Template.Fields): MsgValue {
    m.(messageId := f.messageId, inReplyTo := f.inReplyTo, subject := f.subject, from := f.from,
       to := f.to, replyTo := f.replyTo, cc := f.cc, bcc := f.bcc)
  }

  /** One more quoted line of the reply body, glued to the ones before. */
  lemma QuoteOneMore(lines: seq<string>, i: nat, attribution: string, content: string, glue: string)
    requires i < |lines|
    requires content == attribution + Text.JoinWith(Reply.QuoteAll(lines[..i]), "\n")
    requires glue == if i == 0 then "" else "\n"
    ensures content + glue + ">" + (if Text.StartsWith(lines[i], ">") then "" else " ") + lines[i]
         == attribution + Text.JoinWith(Reply.QuoteAll(lines[..i + 1]), "\n")
  {
    var quoted := Reply.QuoteAll(lines[..i]);
    var line := Reply.QuoteLine(lines[i]);
    QuoteAllSnoc(lines, i);
    Text.JoinWithSnoc(quoted, line, "\n");
    QuoteLinePushed(content + glue, lines[i]);
    if i == 0 {
      assert content == attribution + "";
    } else {
      GluedAfter(attribution, Text.JoinWith(quoted, "\n"), glue, line);
    }
  }

  /** Text glued after a prefix and a joined run of lines. */
  lemma GluedAfter(prefix: string, joined: string, glue: string, line: string)
    ensures prefix + joined + glue + line == prefix + (joined + glue + line)
  {
  }

  /** Quoting one more line. */
  lemma QuoteAllSnoc(lines: seq<string>, i: nat)
    requires i < |lines|
    ensures Reply.QuoteAll(lines[..i + 1]) == Reply.QuoteAll(lines[..i]) + [Reply.QuoteLine(lines[i])]
  {
    assert Reply.QuoteAll(lines[..i + 1])[..i] == Reply.QuoteAll(lines[..i]);
  }

  /** Pushing the quote mark, the space and the line is pushing the quoted line. */
  lemma QuoteLinePushed(content: string, line: string)
    ensures content + ">" + (if Text.StartsWith(line, ">") then "" else " ") + line
         == content + Reply.QuoteLine(line)
  {
  }

  // ---------------------------------------------------------------------------------------------
  // What the operations promise

  /** The headers of a reply: no message id, `from` is the account address alone, the recipients
      are taken from `reply_to` without the account address (one of them, or all for a reply to
      all), copies are kept only for a reply to all, and the subject starts with "Re:". Without
      `reply_to` nobody is addressed, since `from` is already the account's when the recipients are
      chosen. Everything else is kept. */
  lemma ReplyHeaders(m: MsgValue, all: bool, me: Addr, env: Collaborators)
    ensures var r := Replied(m, all, me, env);
      r.messageId.None? && r.inReplyTo.None? && r.from == Some([me])
      && Text.StartsWith(r.subject, "Re:")
      && (r.to.Some? ==> forall i :: 0 <= i < |r.to.value| ==> r.to.value[i] != me)
      && (all ==> r.cc == m.cc && r.bcc == m.bcc)
      && (!all ==> r.cc.None? && r.bcc.None? && (r.to.Some? ==> |r.to.value| == 1))
      && (m.replyTo.None? ==> r.to == if all then Some([]) else None)
      && (all && m.replyTo.Some? ==> r.to.Some? && forall x :: x in r.to.value <==> x in m.replyTo.value && x != me)
      && (!all && m.replyTo.Some? ==> (r.to.Some? <==> exists i :: 0 <= i < |m.replyTo.value| && m.replyTo.value[i] != me))
      && r.id == m.id && r.flags == m.flags && r.date == m.date && r.replyTo == m.replyTo && r.encrypt == m.encrypt
  {
    if m.replyTo.None? {
      Reply.ReplyWithoutReplyToHasNoRecipient(me, all);
    } else {
      Reply.WithoutKeepsOthers(m.replyTo.value, me);
      Reply.SingleReplyTakesFirstOther(m.replyTo.value, me);
    }
  }

  /** The envelope of a reply or a forward is sent from the account's e-mail. A forward has no
      envelope recipient until one is added; a reply goes to the e-mails of its recipients, and to
      nobody when the message had no `reply_to`. */
  lemma EnvelopeOfReplyAndForward(m: MsgValue, all: bool, me: Addr, env: Collaborators)
    ensures var r := Replied(m, all, me, env);
      Addresses.EnvelopeParties(r.from, r.to).0 == Some(me.email)
      && (m.replyTo.None? ==> Addresses.EnvelopeParties(r.from, r.to).1 == [])
      && (r.to.Some? ==> Addresses.EnvelopeParties(r.from, r.to).1 == seq(|r.to.value|, i requires 0 <= i < |r.to.value| => r.to.value[i].email))
    ensures var f := Forwarded(m, me, env);
      Addresses.EnvelopeParties(f.from, f.to) == (Some(me.email), [])
  {
    ReplyHeaders(m, all, me, env);
  }

  /** Replying to a reply does not prefix the subject again. */
  lemma ReplySubjectIdempotent(m: MsgValue, all: bool, all': bool, me: Addr, env: Collaborators)
    ensures Replied(Replied(m, all, me, env), all', me, env).subject == Replied(m, all, me, env).subject
  {
    Reply.PrefixedIdempotent(m.subject, "Re:");
  }

  /** The one part of a reply: the attribution line, naming the date and the first address of
      `reply_to` (or the account address when there is no `reply_to`), then every line of the
      trimmed plain text quoted, the signature included, since the signature delimiter holds a
      newline and so never equals a line. */
  lemma ReplyQuotesEverything(m: MsgValue, all: bool, me: Addr, env: Collaborators)
    ensures Replied(m, all, me, env).parts
         == [Parts.TextPlain(Reply.Attribution(Reply.DateText(m.date, env), Reply.SenderName(m.replyTo, Some([me])))
              + Text.JoinWith(Reply.QuoteAll(Text.Lines(Text.Trim(Parts.FoldTextParts(m.parts, "plain", env)))), "\n"))]
    ensures m.replyTo.None? ==> Reply.SenderName(m.replyTo, Some([me])) == me.name.GetOr(me.email)
  {
    Reply.ReplyQuotesSignature(Parts.FoldTextParts(m.parts, "plain", env));
  }

  /** A forward goes to nobody yet, from the account address, with a subject starting with "Fwd:";
      it keeps the attachments and the HTML text, and its one plain text, read line by line, is the
      original header block followed by the lines of the original text, as long as none of the
      shown values spans several lines. */
  lemma ForwardContents(m: MsgValue, me: Addr, env: Collaborators)
    requires '\n' !in m.subject
    requires m.date.Some? ==> '\n' !in env.rfc2822(m.date.value)
    requires m.replyTo.Or(m.from).Some? ==> '\n' !in Addresses.DisplayAddrs(m.replyTo.Or(m.from).value, env)
    requires m.to.Some? ==> '\n' !in Addresses.DisplayAddrs(m.to.value, env)
    ensures var r := Forwarded(m, me, env);
      r.from == Some([me]) && r.to == Some([]) && r.cc.None? && r.bcc.None? && r.messageId.None?
      && r.inReplyTo.None? && r.replyTo == m.replyTo && Text.StartsWith(r.subject, "Fwd:")
      && Parts.Attachments(r.parts) == Parts.Attachments(m.parts)
      && Parts.HtmlContents(r.parts) == Parts.HtmlContents(m.parts)
      && |Parts.PlainContents(r.parts)| == 1
      && Text.Split(Parts.PlainContents(r.parts)[0], '\n')
         == Forward.HeaderBlock(m.subject, m.date, m.replyTo.Or(m.from), m.to, env)
            + Text.Split(Parts.FoldTextParts(m.parts, "plain", env), '\n')
  {
    Forward.ForwardBodyLines(m.subject, m.date, m.replyTo.Or(m.from), m.to,
                             Parts.FoldTextParts(m.parts, "plain", env), env);
  }

  /** After a merge each address list and the subject the overlay has are its own, the
      attachments are both messages' in order, the plain and the HTML text are the overlay's last
      ones when it has any, and the fields the overlay does not touch are kept. */
  lemma MergedContents(m: MsgValue, overlay: MsgValue)
    ensures var r := Merged(m, overlay);
      Parts.Attachments(r.parts) == Parts.Attachments(m.parts) + Parts.Attachments(overlay.parts)
      && Parts.PlainContents(r.parts) == (if Parts.PlainContents(overlay.parts) == [] then Parts.PlainContents(m.parts)
                                          else [Parts.Last(Parts.PlainContents(overlay.parts))])
      && Parts.HtmlContents(r.parts) == (if Parts.HtmlContents(overlay.parts) == [] then Parts.HtmlContents(m.parts)
                                         else [Parts.Last(Parts.HtmlContents(overlay.parts))])
      && r.from == (if overlay.from.Some? then overlay.from else m.from)
      && r.to == (if overlay.to.Some? then overlay.to else m.to)
      && r.cc == (if overlay.cc.Some? then overlay.cc else m.cc)
      && r.bcc == (if overlay.bcc.Some? then overlay.bcc else m.bcc)
      && (overlay.subject != "" ==> r.subject == overlay.subject)
      && (overlay.subject == "" ==> r.subject == m.subject)
      && r.id == m.id && r.flags == m.flags && r.date == m.date && r.replyTo == m.replyTo
      && r.messageId == m.messageId && r.inReplyTo == m.inReplyTo && r.encrypt == m.encrypt
  {
    Parts.MergedAttachments(m.parts, overlay.parts);
    Parts.MergedPlainContents(m.parts, overlay.parts);
    Parts.MergedHtmlContents(m.parts, overlay.parts);
  }

  /** Merging in an empty message changes nothing. */
  lemma MergeDefaultIsIdentity(m: MsgValue)
    ensures Merged(m, DefaultValue) == m
  {
    assert Parts.MergeParts(m.parts, []) == m.parts;
  }

  /** The attachments `add_attachments` appends are the loaded ones, in order, up to the first
      failure; all of them when none fails. */
  lemma {:induction false} LoadedAttachments(loaded: seq<Result<Parts.BinaryPart, Error>>)
    ensures |Parts.Attachments(LoadedParts(loaded))| == |LoadedParts(loaded)|
    ensures forall i :: 0 <= i < |LoadedParts(loaded)| ==> Parts.Attachments(LoadedParts(loaded))[i] == loaded[i].value
    ensures FirstLoadError(loaded).None? ==> |LoadedParts(loaded)| == |loaded|
  {
    if loaded != [] && loaded[0].Ok? {
      LoadedAttachments(loaded[1..]);
      var rest := LoadedParts(loaded[1..]);
      assert LoadedParts(loaded) == [Parts.Binary(loaded[0].value)] + rest;
      Parts.AttachmentsOfAppend([Parts.Binary(loaded[0].value)], rest);
      Parts.ProjectionsOfOne(Parts.Binary(loaded[0].value));
    }
  }

  /** The attachments of a message after `add_attachments`: the old ones, then the loaded ones. */
  lemma AddedAttachments(m: MsgValue, loaded: seq<Result<Parts.BinaryPart, Error>>)
    ensures Parts.Attachments(m.parts + LoadedParts(loaded)) == Parts.Attachments(m.parts) + Parts.Attachments(LoadedParts(loaded))
    ensures FirstLoadError(loaded).None? ==>
      |Parts.Attachments(m.parts + LoadedParts(loaded))| == |Parts.Attachments(m.parts)| + |loaded|
  {
    Parts.AttachmentsOfAppend(m.parts, LoadedParts(loaded));
    LoadedAttachments(loaded);
  }

  /** Editing a message through its template: the template written without overrides, once its
      headers are parsed back as written and its body decodes, is read into a message with the
      original recipients and the subject and in-reply-to trimmed, from the account address, with
      no message id or reply-to, provided the recipients are not empty and every address list
      shows back as itself. */
  lemma EditRoundTrip(m: MsgValue, account: Account, env: Collaborators, raw: seq<Template.RawHeader>, body: seq<byte>)
    requires m.to.Some? && m.to.value != [] && Addresses.ShowsBack(m.to.value, env)
    requires m.cc.Some? ==> m.cc.value != [] && Addresses.ShowsBack(m.cc.value, env)
    requires m.bcc.Some? ==> m.bcc.value != [] && Addresses.ShowsBack(m.bcc.value, env)
    requires Addresses.ParsedAddrs(Text.Trim(account.address), env).Ok?
    requires Template.ParsedAs(raw, Template.TplHeaders(m.inReplyTo, m.to, m.cc, m.bcc, m.subject,
                                                        Template.NoOverride, account, env), env)
    requires env.decodeUtf8(body).Some?
    ensures Template.TemplateFailure(raw, body, env).None?
    ensures var r := FromFields(Template.ReadFields(Template.DecodedHeaders(raw, env), env), env.decodeUtf8(body).value);
      r.to == m.to && r.cc == m.cc && r.bcc == m.bcc && r.subject == Text.Trim(m.subject)
      && r.inReplyTo == Template.TrimmedOption(m.inReplyTo) && r.messageId.None? && r.replyTo.None?
      && r.from == Addresses.ParsedAddrs(Text.Trim(account.address), env).value
      && r.parts == [Parts.TextPlain(env.decodeUtf8(body).value)]
  {
    Template.TemplateRoundTrip(m.inReplyTo, m.to.value, m.cc, m.bcc, m.subject, account, env, raw);
  }

  /** The body half of the edit cycle. When the template body comes back as `to_tpl` wrote it,
      the message read from it holds one plain-text part: the folded text, the account's signature
      after a blank line, and a newline. Merged back into the edited message, that text replaces
      the plain text and keeps the HTML and the attachments. So each edit adds the signature and a
      newline to the plain text, and the text never comes back as it was. */
  lemma EditBodyGainsSignature(m: MsgValue, account: Account, env: Collaborators, f: Template.Fields, body: seq<byte>)
    requires env.decodeUtf8(body) == Some(Template.TplBody(Parts.FoldTextPlainParts(m.parts, env), Template.NoOverride, account))
    ensures var text := Parts.FoldTextPlainParts(m.parts, env) + Template.Signature(account.sig) + "\n";
      FromFields(f, env.decodeUtf8(body).value).parts == [Parts.TextPlain(text)]
      && text != Parts.FoldTextPlainParts(m.parts, env)
      && var edited := Merged(m, FromFields(f, env.decodeUtf8(body).value));
      Parts.PlainContents(edited.parts) == [text]
      && Parts.HtmlContents(edited.parts) == Parts.HtmlContents(m.parts)
      && Parts.Attachments(edited.parts) == Parts.Attachments(m.parts)
  {
    var text := Parts.FoldTextPlainParts(m.parts, env) + Template.Signature(account.sig) + "\n";
    var read := FromFields(f, env.decodeUtf8(body).value);
    assert read.parts == [Parts.TextPlain(text)];
    assert |text| > |Parts.FoldTextPlainParts(m.parts, env)|;
    assert Parts.PlainContents(read.parts) == [text];
    assert Parts.HtmlContents(read.parts) == [];
    assert Parts.Attachments(read.parts) == [];
    MergedContents(m, read);
  }
}
