/** The text template a message is edited as: what `to_tpl` writes and what `from_tpl` reads back
    from the headers and body a mail parser finds in it. The methods themselves are
    `Message.Msg.ToTpl` and `Message.Msg.FromTpl`. */
module Template {
  import opened Wrappers
  import opened Externals
  import Text
  import Addresses

  /** `TplOverride`: values that take the place of the message's own when a template is written;
      address lists come as already formatted strings. */
  datatype TplOverride = TplOverride(
    from: Option<seq<string>>,
    to: Option<seq<string>>,
    cc: Option<seq<string>>,
    bcc: Option<seq<string>>,
    subject: Option<string>,
    body: Option<string>,
    sig: Option<string>)

  /** `TplOverride::default()`: nothing overridden. */
  const NoOverride: TplOverride := TplOverride(None, None, None, None, None, None, None)

  /** A header of a template, with its value as text. */
  datatype Header = Header(key: string, value: string)

  // ---------------------------------------------------------------------------------------------
  // Writing

  /** The first header of every template. */
  const ContentType: Header := Header("Content-Type", "text/plain; charset=utf-8")

  /** An address header's value: the override's strings joined by ", ", else the field's addresses
      shown and joined by ", ", else nothing. */
  function Joined(over: Option<seq<string>>, addrs: Option<seq<Addr>>, env: Collaborators): Option<string> {
    match over
    case Some(l) => Some(Text.JoinWith(l, ", "))
    case None =>
      match addrs
      case Some(a) => Some(Addresses.DisplayAddrs(a, env))
      case None => None
  }

  /** A header written only when it has a value. */
  function OptionalHeader(key: string, value: Option<string>): (r: seq<Header>)
    ensures value.None? <==> r == []
  {
    match value
    case Some(v) => [Header(key, v)]
    case None => []
  }

  /** The headers `to_tpl` writes, in order: the content type, `In-Reply-To` when there is one,
      `From` (the override, else the account address), `To` (empty when there is nothing to show),
      `Cc` and `Bcc` when there is something to show, and `Subject`. The message's own `from` is not
      an input: the template never shows it. */
  function TplHeaders(inReplyTo: Option<string>, to: Option<seq<Addr>>, cc: Option<seq<Addr>>,
                      bcc: Option<seq<Addr>>, subject: string, opts: TplOverride, account: Account,
                      env: Collaborators): seq<Header>
  {
    [ContentType]
    + OptionalHeader("In-Reply-To", inReplyTo)
    + [Header("From", match opts.from case Some(l) => Text.JoinWith(l, ", ") case None => account.address)]
    + [Header("To", Joined(opts.to, to, env).GetOr(""))]
    + OptionalHeader("Cc", Joined(opts.cc, cc, env))
    + OptionalHeader("Bcc", Joined(opts.bcc, bcc, env))
    + [Header("Subject", opts.subject.GetOr(subject))]
  }

  /** A blank line and the signature, when there is one. */
  function Signature(sig: Option<string>): string {
    match sig
    case Some(s) => "\n\n" + s
    case None => ""
  }

  /** The body of a template: the override body, else `plain`, the folded plain text of the message;
      then the override signature, else the account's; then a newline. */
  function TplBody(plain: string, opts: TplOverride, account: Account): (r: string)
    ensures r != [] && r[|r| - 1] == '\n'
  {
    opts.body.GetOr(plain) + Signature(opts.sig.Or(account.sig)) + "\n"
  }

  /** A header as one line of text, without its newline. */
  function HeaderLine(h: Header): string {
    h.key + ": " + h.value
  }

  /** The header lines, in order. */
  function HeaderLines(hs: seq<Header>): (r: seq<string>)
    ensures |r| == |hs|
    ensures forall i :: 0 <= i < |hs| ==> r[i] == HeaderLine(hs[i])
  {
    seq(|hs|, i requires 0 <= i < |hs| => HeaderLine(hs[i]))
  }

  /** A template: each header on its own line, an empty line, then the body. */
  function Render(hs: seq<Header>, body: string): string {
    Text.Terminated(HeaderLines(hs) + [""]) + body
  }

  /** Writing one more header line after the others. */
  lemma PushHeader(hs: seq<Header>, h: Header)
    ensures Text.Terminated(HeaderLines(hs + [h])) == Text.Terminated(HeaderLines(hs)) + h.key + ": " + h.value + "\n"
  {
    assert HeaderLines(hs + [h])[..|hs|] == HeaderLines(hs);
  }

  /** Writing the empty line that ends the headers. */
  lemma PushSeparator(hs: seq<Header>)
    ensures Text.Terminated(HeaderLines(hs) + [""]) == Text.Terminated(HeaderLines(hs)) + "\n"
  {
    assert (HeaderLines(hs) + [""])[..|hs|] == HeaderLines(hs);
  }

  /** Read back line by line, a template is its header lines, none of them empty, then the empty
      line, then the lines of the body: the first empty line separates headers from body, as long as
      no key or value spans several lines. */
  lemma RenderLines(hs: seq<Header>, body: string)
    requires forall i :: 0 <= i < |hs| ==> '\n' !in hs[i].key && '\n' !in hs[i].value
    ensures Text.Split(Render(hs, body), '\n') == HeaderLines(hs) + [""] + Text.Split(body, '\n')
    ensures forall i :: 0 <= i < |hs| ==> HeaderLines(hs)[i] != ""
  {
    var lines := HeaderLines(hs) + [""];
    forall i | 0 <= i < |lines| ensures '\n' !in lines[i] {
      if i < |hs| {
        assert lines[i] == hs[i].key + ": " + hs[i].value;
        assert ": "[0] != '\n' && ": "[1] != '\n';
      }
    }
    Text.SplitTerminated(lines, body);
    forall i | 0 <= i < |hs| ensures HeaderLines(hs)[i] != "" {
      assert |HeaderLine(hs[i])| >= 2;
    }
  }

  /** A template always opens with the content type line and ends with a newline. */
  lemma TemplateEdges(hs: seq<Header>, plain: string, opts: TplOverride, account: Account)
    requires hs != [] && hs[0] == ContentType
    ensures Text.StartsWith(Render(hs, TplBody(plain, opts, account)), HeaderLine(ContentType) + "\n")
    ensures var t := Render(hs, TplBody(plain, opts, account)); t[|t| - 1] == '\n'
  {
    Text.TerminatedAppend([HeaderLine(hs[0])], HeaderLines(hs)[1..] + [""]);
    assert [HeaderLine(hs[0])] + (HeaderLines(hs)[1..] + [""]) == HeaderLines(hs) + [""];
    assert [HeaderLine(hs[0])][..0] == [];
    assert Text.Terminated([HeaderLine(hs[0])]) == HeaderLine(ContentType) + "\n";
  }

  // ---------------------------------------------------------------------------------------------
  // Reading

  /** A header as the mail parser yields it: its key and the raw bytes of its value. */
  datatype RawHeader = RawHeader(key: string, value: seq<byte>)

  /** The value decoded as UTF-8 and trimmed; `None` when it is not UTF-8. */
  function DecodeHeader(h: RawHeader, env: Collaborators): Option<Header> {
    match env.decodeUtf8(h.value)
    case Some(v) => Some(Header(h.key, Text.Trim(v)))
    case None => None
  }

  /** The lower-cased keys whose values are address lists. */
  predicate IsAddressKey(key: string) {
    key == "from" || key == "to" || key == "reply-to" || key == "cc" || key == "bcc"
  }

  /** Why a header stops the reading of a template: a value that is not UTF-8, or a value of an
      address header that is not an address list; `None` when the header is read. */
  function HeaderFailure(h: RawHeader, env: Collaborators): (r: Option<Error>)
    ensures env.decodeUtf8(h.value).None? ==> r == Some(HeaderValueError(h.key))
    ensures r.Some? && env.decodeUtf8(h.value).Some? ==>
      IsAddressKey(Text.ToLowerAscii(h.key)) && r.value.HeaderError? && r.value.key == h.key
  {
    match DecodeHeader(h, env)
    case None => Some(HeaderValueError(h.key))
    case Some(d) =>
      if IsAddressKey(Text.ToLowerAscii(h.key)) then
        match Addresses.ParsedAddrs(d.value, env)
        case Ok(_) => None
        case Err(e) => Some(HeaderError(h.key, e))
      else None
  }

  /** The failure of the first header that fails, if any. */
  function HeadersFailure(headers: seq<RawHeader>, env: Collaborators): (r: Option<Error>)
    ensures r.None? <==> forall i :: 0 <= i < |headers| ==> HeaderFailure(headers[i], env).None?
  {
    if headers == [] then None
    else if HeaderFailure(headers[0], env).Some? then HeaderFailure(headers[0], env)
    else HeadersFailure(headers[1..], env)
  }

  /** The headers before `i` are read, and header `i` fails: that is the failure of all of them. */
  lemma {:induction false} HeadersFailureAt(headers: seq<RawHeader>, i: nat, env: Collaborators)
    requires i < |headers|
    requires forall k :: 0 <= k < i ==> HeaderFailure(headers[k], env).None?
    requires HeaderFailure(headers[i], env).Some?
    ensures HeadersFailure(headers, env) == HeaderFailure(headers[i], env)
  {
    if i > 0 {
      assert HeaderFailure(headers[0], env).None?;
      HeadersFailureAt(headers[1..], i - 1, env);
      assert headers[1..][i - 1] == headers[i];
    }
  }

  /** Why a template cannot be read: the first failing header, else a body that is not UTF-8. */
  function TemplateFailure(headers: seq<RawHeader>, body: seq<byte>, env: Collaborators): (r: Option<Error>)
    ensures r.None? <==> HeadersFailure(headers, env).None? && env.decodeUtf8(body).Some?
  {
    match HeadersFailure(headers, env)
    case Some(e) => Some(e)
    case None => if env.decodeUtf8(body).None? then Some(BodyDecodeError) else None
  }

  /** The decoded, trimmed headers (a value that is not UTF-8 reads as empty; reading stops there anyway). */
  function DecodedHeaders(headers: seq<RawHeader>, env: Collaborators): (r: seq<Header>)
    ensures |r| == |headers|
    ensures forall i :: 0 <= i < |headers| ==> r[i] == DecodeHeader(headers[i], env).GetOr(Header(headers[i].key, ""))
  {
    seq(|headers|, i requires 0 <= i < |headers| => DecodeHeader(headers[i], env).GetOr(Header(headers[i].key, "")))
  }

  /** Decoding one more header that decodes. */
  lemma DecodedHeadersSnoc(headers: seq<RawHeader>, i: nat, env: Collaborators)
    requires i < |headers| && DecodeHeader(headers[i], env).Some?
    ensures DecodedHeaders(headers[..i + 1], env)
         == DecodedHeaders(headers[..i], env) + [DecodeHeader(headers[i], env).value]
  {
    assert headers[..i + 1][..i] == headers[..i];
  }

  /** The value of the last header whose key, lower-cased, is `key`: later headers win. */
  function LastValue(hs: seq<Header>, key: string): (r: Option<string>)
    ensures r.Some? ==> exists i :: 0 <= i < |hs| && Text.ToLowerAscii(hs[i].key) == key && hs[i].value == r.value
    ensures r.None? <==> forall i :: 0 <= i < |hs| ==> Text.ToLowerAscii(hs[i].key) != key
  {
    if hs == [] then None
    else if Text.ToLowerAscii(hs[|hs| - 1].key) == key then Some(hs[|hs| - 1].value)
    else LastValue(hs[..|hs| - 1], key)
  }

  /** Headers after the last one for `key` do not change its value. */
  lemma {:induction false} LastValueAppend(a: seq<Header>, b: seq<Header>, key: string)
    ensures LastValue(a + b, key) == if LastValue(b, key).Some? then LastValue(b, key) else LastValue(a, key)
  {
    if b == [] {
      assert a + b == a;
    } else {
      assert (a + b)[..|a + b| - 1] == a + b[..|b| - 1];
      LastValueAppend(a, b[..|b| - 1], key);
    }
  }

  /** An address header's list: its last value parsed with the comma-split parser. */
  function AddrField(hs: seq<Header>, key: string, env: Collaborators): Option<seq<Addr>> {
    match LastValue(hs, key)
    case Some(v) => (match Addresses.ParsedAddrs(v, env) case Ok(a) => a case Err(_) => None)
    case None => None
  }

  /** The message fields a template sets. */
  datatype Fields = Fields(
    messageId: Option<string>,
    inReplyTo: Option<string>,
    subject: string,
    from: Option<seq<Addr>>,
    to: Option<seq<Addr>>,
    replyTo: Option<seq<Addr>>,
    cc: Option<seq<Addr>>,
    bcc: Option<seq<Addr>>)

  /** The fields of a default message before any header is read. */
  const NoFields: Fields := Fields(None, None, "", None, None, None, None, None)

  /** The fields read from decoded headers: each from the last header with its key, whatever the
      case of the key; other keys are ignored. */
  function ReadFields(hs: seq<Header>, env: Collaborators): Fields {
    Fields(
      LastValue(hs, "message-id"),
      LastValue(hs, "in-reply-to"),
      LastValue(hs, "subject").GetOr(""),
      AddrField(hs, "from", env),
      AddrField(hs, "to", env),
      AddrField(hs, "reply-to", env),
      AddrField(hs, "cc", env),
      AddrField(hs, "bcc", env))
  }

  /** Reading one header into the fields read so far: the field its lower-cased key names takes its
      value; other keys change nothing. */
  function ReadHeader(f: Fields, h: Header, env: Collaborators): Fields {
    var key := Text.ToLowerAscii(h.key);
    var addrs := match Addresses.ParsedAddrs(h.value, env) case Ok(a) => a case Err(_) => None;
    Fields(
      if key == "message-id" then Some(h.value) else f.messageId,
      if key == "in-reply-to" then Some(h.value) else f.inReplyTo,
      if key == "subject" then h.value else f.subject,
      if key == "from" then addrs else f.from,
      if key == "to" then addrs else f.to,
      if key == "reply-to" then addrs else f.replyTo,
      if key == "cc" then addrs else f.cc,
      if key == "bcc" then addrs else f.bcc)
  }

  /** One more header: the value for its key becomes its own. */
  lemma LastValueSnoc(hs: seq<Header>, h: Header, key: string)
    ensures LastValue(hs + [h], key) == if Text.ToLowerAscii(h.key) == key then Some(h.value) else LastValue(hs, key)
  {
    assert (hs + [h])[..|hs|] == hs;
  }

  /** Reading headers one by one, as the header loop does, gives the fields of the last header for
      each key. */
  lemma ReadFieldsSnoc(hs: seq<Header>, h: Header, env: Collaborators)
    ensures ReadFields(hs + [h], env) == ReadHeader(ReadFields(hs, env), h, env)
  {
    LastValueSnoc(hs, h, "message-id");
    LastValueSnoc(hs, h, "in-reply-to");
    LastValueSnoc(hs, h, "subject");
    AddrFieldSnoc(hs, h, "from", env);
    AddrFieldSnoc(hs, h, "to", env);
    AddrFieldSnoc(hs, h, "reply-to", env);
    AddrFieldSnoc(hs, h, "cc", env);
    AddrFieldSnoc(hs, h, "bcc", env);
  }

  /** One more header: the address list for its key is its own, parsed. */
  lemma AddrFieldSnoc(hs: seq<Header>, h: Header, key: string, env: Collaborators)
    ensures AddrField(hs + [h], key, env)
         == if Text.ToLowerAscii(h.key) == key
            then (match Addresses.ParsedAddrs(h.value, env) case Ok(a) => a case Err(_) => None)
            else AddrField(hs, key, env)
  {
    LastValueSnoc(hs, h, key);
  }

  /** A header whose key is none of the eight read ones changes no field. */
  lemma UnknownKeyIgnored(hs: seq<Header>, h: Header, env: Collaborators)
    requires var k := Text.ToLowerAscii(h.key);
      !IsAddressKey(k) && k != "message-id" && k != "in-reply-to" && k != "subject"
    ensures ReadFields(hs + [h], env) == ReadFields(hs, env)
  {
    ReadFieldsSnoc(hs, h, env);
  }

  /** Keys are matched without regard to ASCII case: headers whose keys differ only in case read the same. */
  lemma {:induction false} KeyCaseIgnored(hs: seq<Header>, hs': seq<Header>, key: string)
    requires |hs| == |hs'|
    requires forall i :: 0 <= i < |hs| ==>
      Text.ToLowerAscii(hs[i].key) == Text.ToLowerAscii(hs'[i].key) && hs[i].value == hs'[i].value
    ensures LastValue(hs, key) == LastValue(hs', key)
  {
    if hs != [] {
      KeyCaseIgnored(hs[..|hs| - 1], hs'[..|hs'| - 1], key);
    }
  }

  // ---------------------------------------------------------------------------------------------
  // Writing, then reading back

  /** The keys `to_tpl` writes, lower-cased. */
  lemma RenderedKeys()
    ensures Text.ToLowerAscii("Content-Type") == "content-type"
    ensures Text.ToLowerAscii("In-Reply-To") == "in-reply-to"
    ensures Text.ToLowerAscii("From") == "from"
    ensures Text.ToLowerAscii("To") == "to"
    ensures Text.ToLowerAscii("Cc") == "cc"
    ensures Text.ToLowerAscii("Bcc") == "bcc"
    ensures Text.ToLowerAscii("Subject") == "subject"
  {
    Text.ToLowerAsciiOf("Content-Type", "content-type");
    Text.ToLowerAsciiOf("In-Reply-To", "in-reply-to");
    Text.ToLowerAsciiOf("From", "from");
    Text.ToLowerAsciiOf("To", "to");
    Text.ToLowerAsciiOf("Cc", "cc");
    Text.ToLowerAsciiOf("Bcc", "bcc");
    Text.ToLowerAsciiOf("Subject", "subject");
  }

  /** The headers a parser finds in a template decode to the written ones, trimmed. */
  predicate ParsedAs(raw: seq<RawHeader>, hs: seq<Header>, env: Collaborators) {
    |raw| == |hs| && forall i :: 0 <= i < |raw| ==>
      raw[i].key == hs[i].key && env.decodeUtf8(raw[i].value) == Some(hs[i].value)
  }

  /** Each header value trimmed, as reading does. */
  function Trimmed(hs: seq<Header>): (r: seq<Header>)
    ensures |r| == |hs|
    ensures forall i :: 0 <= i < |hs| ==> r[i] == Header(hs[i].key, Text.Trim(hs[i].value))
  {
    seq(|hs|, i requires 0 <= i < |hs| => Header(hs[i].key, Text.Trim(hs[i].value)))
  }

  /** Trimming whole runs of headers one after the other. */
  lemma TrimmedAppend(a: seq<Header>, b: seq<Header>)
    ensures Trimmed(a + b) == Trimmed(a) + Trimmed(b)
  {
  }

  /** The value an address header of a written template reads back as, given the message's list. */
  lemma ReadBackAddrs(hs: seq<Header>, key: string, addrs: seq<Addr>, env: Collaborators)
    requires addrs != [] && Addresses.ShowsBack(addrs, env)
    requires LastValue(hs, key) == Some(Text.Trim(Addresses.DisplayAddrs(addrs, env)))
    ensures AddrField(hs, key, env) == Some(addrs)
  {
    Addresses.DisplayThenParse(addrs, env);
  }

  /** Looking a key up in a single trimmed header. */
  lemma LastValueOfOne(k: string, v: string, key: string)
    ensures LastValue(Trimmed([Header(k, v)]), key) == if Text.ToLowerAscii(k) == key then Some(Text.Trim(v)) else None
  {
    assert Trimmed([Header(k, v)]) == [Header(k, Text.Trim(v))];
    assert [Header(k, Text.Trim(v))][..0] == [];
  }

  /** Looking a key up in an optional trimmed header. */
  lemma LastValueOfOptional(k: string, v: Option<string>, key: string)
    ensures LastValue(Trimmed(OptionalHeader(k, v)), key)
         == if v.Some? && Text.ToLowerAscii(k) == key then Some(Text.Trim(v.value)) else None
  {
    if v.Some? { LastValueOfOne(k, v.value, key); }
  }

  /** The last value for `key` over seven runs of headers, the later runs winning. */
  function LastValues7(a: seq<Header>, b: seq<Header>, c: seq<Header>, d: seq<Header>, e: seq<Header>,
                       f: seq<Header>, g: seq<Header>, key: string): Option<string>
  {
    LastValue(g, key).Or(LastValue(f, key)).Or(LastValue(e, key)).Or(LastValue(d, key))
      .Or(LastValue(c, key)).Or(LastValue(b, key)).Or(LastValue(a, key))
  }

  /** Looking a key up in seven runs of headers one after the other. */
  lemma LastValueOfSeven(a: seq<Header>, b: seq<Header>, c: seq<Header>, d: seq<Header>, e: seq<Header>,
                         f: seq<Header>, g: seq<Header>, key: string)
    ensures LastValue(a + b + c + d + e + f + g, key) == LastValues7(a, b, c, d, e, f, g, key)
  {
    LastValueAppend(a + b + c + d + e + f, g, key);
    LastValueAppend(a + b + c + d + e, f, key);
    LastValueAppend(a + b + c + d, e, key);
    LastValueAppend(a + b + c, d, key);
    LastValueAppend(a + b, c, key);
    LastValueAppend(a, b, key);
  }

  /** The value an optional field reads back as: trimmed, when present. */
  function TrimmedOption(v: Option<string>): Option<string> {
    match v
    case Some(s) => Some(Text.Trim(s))
    case None => None
  }

  /** The trimmed headers of a template written without overrides, as seven runs. */
  lemma TemplateRuns(inReplyTo: Option<string>, to: seq<Addr>, cc: Option<seq<Addr>>,
                     bcc: Option<seq<Addr>>, subject: string, account: Account, env: Collaborators)
    ensures Trimmed(TplHeaders(inReplyTo, Some(to), cc, bcc, subject, NoOverride, account, env))
         == Trimmed([ContentType]) + Trimmed(OptionalHeader("In-Reply-To", inReplyTo))
          + Trimmed([Header("From", account.address)]) + Trimmed([Header("To", Addresses.DisplayAddrs(to, env))])
          + Trimmed(OptionalHeader("Cc", Joined(None, cc, env))) + Trimmed(OptionalHeader("Bcc", Joined(None, bcc, env)))
          + Trimmed([Header("Subject", subject)])
  {
    var ct := [ContentType];
    var irt := OptionalHeader("In-Reply-To", inReplyTo);
    var fr := [Header("From", account.address)];
    var t := [Header("To", Addresses.DisplayAddrs(to, env))];
    var c := OptionalHeader("Cc", Joined(None, cc, env));
    var b := OptionalHeader("Bcc", Joined(None, bcc, env));
    var s := [Header("Subject", subject)];
    assert TplHeaders(inReplyTo, Some(to), cc, bcc, subject, NoOverride, account, env)
        == ct + irt + fr + t + c + b + s;
    TrimmedAppend(ct + irt + fr + t + c + b, s);
    TrimmedAppend(ct + irt + fr + t + c, b);
    TrimmedAppend(ct + irt + fr + t, c);
    TrimmedAppend(ct + irt + fr, t);
    TrimmedAppend(ct + irt, fr);
    TrimmedAppend(ct, irt);
  }

  /** The last value for each key in the trimmed headers of a template written without overrides. */
  lemma TemplateLastValue(inReplyTo: Option<string>, to: seq<Addr>, cc: Option<seq<Addr>>,
                          bcc: Option<seq<Addr>>, subject: string, account: Account, env: Collaborators,
                          key: string)
    requires key in {"message-id", "in-reply-to", "subject", "from", "to", "reply-to", "cc", "bcc"}
    ensures LastValue(Trimmed(TplHeaders(inReplyTo, Some(to), cc, bcc, subject, NoOverride, account, env)), key)
         == if key == "in-reply-to" then TrimmedOption(inReplyTo)
            else if key == "subject" then Some(Text.Trim(subject))
            else if key == "from" then Some(Text.Trim(account.address))
            else if key == "to" then Some(Text.Trim(Addresses.DisplayAddrs(to, env)))
            else if key == "cc" then TrimmedOption(Joined(None, cc, env))
            else if key == "bcc" then TrimmedOption(Joined(None, bcc, env))
            else None
  {
    RenderedKeys();
    TemplateRuns(inReplyTo, to, cc, bcc, subject, account, env);
    LastValueOfSeven(Trimmed([ContentType]), Trimmed(OptionalHeader("In-Reply-To", inReplyTo)),
      Trimmed([Header("From", account.address)]), Trimmed([Header("To", Addresses.DisplayAddrs(to, env))]),
      Trimmed(OptionalHeader("Cc", Joined(None, cc, env))), Trimmed(OptionalHeader("Bcc", Joined(None, bcc, env))),
      Trimmed([Header("Subject", subject)]), key);
    LastValueOfOne(ContentType.key, ContentType.value, key);
    LastValueOfOptional("In-Reply-To", inReplyTo, key);
    LastValueOfOne("From", account.address, key);
    LastValueOfOne("To", Addresses.DisplayAddrs(to, env), key);
    LastValueOfOptional("Cc", Joined(None, cc, env), key);
    LastValueOfOptional("Bcc", Joined(None, bcc, env), key);
    LastValueOfOne("Subject", subject, key);
  }

  /** Every address header among decoded headers holds an address list. */
  predicate AddressesParse(hs: seq<Header>, env: Collaborators) {
    forall i :: 0 <= i < |hs| ==>
      IsAddressKey(Text.ToLowerAscii(hs[i].key)) ==> Addresses.ParsedAddrs(hs[i].value, env).Ok?
  }

  /** The headers of a template written without overrides all read, under the round-trip conditions. */
  lemma TemplateAddressesParse(inReplyTo: Option<string>, to: seq<Addr>, cc: Option<seq<Addr>>,
                               bcc: Option<seq<Addr>>, subject: string, account: Account, env: Collaborators)
    requires to != [] && Addresses.ShowsBack(to, env)
    requires cc.Some? ==> cc.value != [] && Addresses.ShowsBack(cc.value, env)
    requires bcc.Some? ==> bcc.value != [] && Addresses.ShowsBack(bcc.value, env)
    requires Addresses.ParsedAddrs(Text.Trim(account.address), env).Ok?
    ensures AddressesParse(Trimmed(TplHeaders(inReplyTo, Some(to), cc, bcc, subject, NoOverride, account, env)), env)
  {
    TemplateRuns(inReplyTo, to, cc, bcc, subject, account, env);
    RunsParse(inReplyTo, to, cc, bcc, subject, account, env);
  }

  /** The seven runs of such a template each read. */
  lemma RunsParse(inReplyTo: Option<string>, to: seq<Addr>, cc: Option<seq<Addr>>,
                  bcc: Option<seq<Addr>>, subject: string, account: Account, env: Collaborators)
    requires to != [] && Addresses.ShowsBack(to, env)
    requires cc.Some? ==> cc.value != [] && Addresses.ShowsBack(cc.value, env)
    requires bcc.Some? ==> bcc.value != [] && Addresses.ShowsBack(bcc.value, env)
    requires Addresses.ParsedAddrs(Text.Trim(account.address), env).Ok?
    ensures AddressesParse(Trimmed([ContentType]) + Trimmed(OptionalHeader("In-Reply-To", inReplyTo))
          + Trimmed([Header("From", account.address)]) + Trimmed([Header("To", Addresses.DisplayAddrs(to, env))])
          + Trimmed(OptionalHeader("Cc", Joined(None, cc, env))) + Trimmed(OptionalHeader("Bcc", Joined(None, bcc, env)))
          + Trimmed([Header("Subject", subject)]), env)
  {
    KeyKinds();
    AddressesParseOptional(ContentType.key, Some(ContentType.value), env);
    AddressesParseOptional("In-Reply-To", inReplyTo, env);
    AddressesParseOptional("From", Some(account.address), env);
    AddressRunParses("To", Some(to), env);
    AddressRunParses("Cc", cc, env);
    AddressRunParses("Bcc", bcc, env);
    AddressesParseOptional("Subject", Some(subject), env);
    AddressesParseSeven(Trimmed([ContentType]), Trimmed(OptionalHeader("In-Reply-To", inReplyTo)),
      Trimmed([Header("From", account.address)]), Trimmed(OptionalHeader("To", Joined(None, Some(to), env))),
      Trimmed(OptionalHeader("Cc", Joined(None, cc, env))), Trimmed(OptionalHeader("Bcc", Joined(None, bcc, env))),
      Trimmed([Header("Subject", subject)]), env);
  }

  /** Which written keys name address headers. */
  lemma KeyKinds()
    ensures !IsAddressKey(Text.ToLowerAscii(ContentType.key))
    ensures !IsAddressKey(Text.ToLowerAscii("In-Reply-To"))
    ensures !IsAddressKey(Text.ToLowerAscii("Subject"))
  {
    assert |Text.ToLowerAscii(ContentType.key)| == 12;
    assert |Text.ToLowerAscii("In-Reply-To")| == 11;
    assert |Text.ToLowerAscii("Subject")| == 7;
  }

  /** An optional address header of a template reads back when its list shows back. */
  lemma AddressRunParses(k: string, addrs: Option<seq<Addr>>, env: Collaborators)
    requires addrs.Some? ==> addrs.value != [] && Addresses.ShowsBack(addrs.value, env)
    ensures AddressesParse(Trimmed(OptionalHeader(k, Joined(None, addrs, env))), env)
  {
    if addrs.Some? {
      Addresses.DisplayThenParse(addrs.value, env);
    }
    AddressesParseOptional(k, Joined(None, addrs, env), env);
  }

  /** Seven runs of headers that read read together. */
  lemma AddressesParseSeven(a: seq<Header>, b: seq<Header>, c: seq<Header>, d: seq<Header>, e: seq<Header>,
                            f: seq<Header>, g: seq<Header>, env: Collaborators)
    requires AddressesParse(a, env) && AddressesParse(b, env) && AddressesParse(c, env) && AddressesParse(d, env)
    requires AddressesParse(e, env) && AddressesParse(f, env) && AddressesParse(g, env)
    ensures AddressesParse(a + b + c + d + e + f + g, env)
  {
    AddressesParseAppend(a, b, env);
    AddressesParseAppend(a + b, c, env);
    AddressesParseAppend(a + b + c, d, env);
    AddressesParseAppend(a + b + c + d, e, env);
    AddressesParseAppend(a + b + c + d + e, f, env);
    AddressesParseAppend(a + b + c + d + e + f, g, env);
  }

  /** An optional header, trimmed, reads when its value is an address list or its key is not an address key. */
  lemma AddressesParseOptional(k: string, v: Option<string>, env: Collaborators)
    requires v.Some? && IsAddressKey(Text.ToLowerAscii(k)) ==> Addresses.ParsedAddrs(Text.Trim(v.value), env).Ok?
    ensures AddressesParse(Trimmed(OptionalHeader(k, v)), env)
  {
  }

  /** Two runs of headers that read read together. */
  lemma AddressesParseAppend(a: seq<Header>, b: seq<Header>, env: Collaborators)
    requires AddressesParse(a, env) && AddressesParse(b, env)
    ensures AddressesParse(a + b, env)
  {
    forall i | 0 <= i < |a + b| && IsAddressKey(Text.ToLowerAscii((a + b)[i].key))
      ensures Addresses.ParsedAddrs((a + b)[i].value, env).Ok?
    {
      if i >= |a| { assert (a + b)[i] == b[i - |a|]; }
    }
  }

  /** A template written without overrides from a message with recipients reads back as that
      message's in-reply-to, subject, `to`, `cc` and `bcc` (values trimmed), with the account address
      as `from` and no message id or reply-to, provided every address list shows back and the account
      address parses as a list. */
  lemma TemplateRoundTrip(inReplyTo: Option<string>, to: seq<Addr>, cc: Option<seq<Addr>>,
                          bcc: Option<seq<Addr>>, subject: string, account: Account, env: Collaborators,
                          raw: seq<RawHeader>)
    requires to != [] && Addresses.ShowsBack(to, env)
    requires cc.Some? ==> cc.value != [] && Addresses.ShowsBack(cc.value, env)
    requires bcc.Some? ==> bcc.value != [] && Addresses.ShowsBack(bcc.value, env)
    requires Addresses.ParsedAddrs(Text.Trim(account.address), env).Ok?
    requires ParsedAs(raw, TplHeaders(inReplyTo, Some(to), cc, bcc, subject, NoOverride, account, env), env)
    ensures HeadersFailure(raw, env).None?
    ensures ReadFields(DecodedHeaders(raw, env), env)
         == Fields(None, TrimmedOption(inReplyTo), Text.Trim(subject),
                   Addresses.ParsedAddrs(Text.Trim(account.address), env).value, Some(to), None, cc, bcc)
  {
    var written := TplHeaders(inReplyTo, Some(to), cc, bcc, subject, NoOverride, account, env);
    DecodedAsWritten(raw, written, env);
    TemplateAddressesParse(inReplyTo, to, cc, bcc, subject, account, env);
    TemplateFields(inReplyTo, to, cc, bcc, subject, account, env);
  }

  /** Headers a parser found as written decode to the written ones, trimmed, and all read when their
      address values parse. */
  lemma DecodedAsWritten(raw: seq<RawHeader>, written: seq<Header>, env: Collaborators)
    requires ParsedAs(raw, written, env)
    ensures DecodedHeaders(raw, env) == Trimmed(written)
    ensures AddressesParse(Trimmed(written), env) ==> HeadersFailure(raw, env).None?
  {
    var hs := DecodedHeaders(raw, env);
    forall i | 0 <= i < |raw| ensures DecodeHeader(raw[i], env) == Some(Trimmed(written)[i]) {
    }
    assert hs == Trimmed(written);
  }

  /** The address list the account address reads back as. */
  function AccountFrom(account: Account, env: Collaborators): Option<seq<Addr>> {
    match Addresses.ParsedAddrs(Text.Trim(account.address), env)
    case Ok(a) => a
    case Err(_) => None
  }

  /** The fields read from the trimmed headers of a template written without overrides. */
  lemma TemplateFields(inReplyTo: Option<string>, to: seq<Addr>, cc: Option<seq<Addr>>,
                       bcc: Option<seq<Addr>>, subject: string, account: Account, env: Collaborators)
    requires to != [] && Addresses.ShowsBack(to, env)
    requires cc.Some? ==> cc.value != [] && Addresses.ShowsBack(cc.value, env)
    requires bcc.Some? ==> bcc.value != [] && Addresses.ShowsBack(bcc.value, env)
    ensures ReadFields(Trimmed(TplHeaders(inReplyTo, Some(to), cc, bcc, subject, NoOverride, account, env)), env)
         == Fields(None, TrimmedOption(inReplyTo), Text.Trim(subject), AccountFrom(account, env), Some(to), None, cc, bcc)
  {
    TemplateTextFields(inReplyTo, to, cc, bcc, subject, account, env);
    TemplateAddrFields(inReplyTo, to, cc, bcc, subject, account, env);
  }

  /** The text fields of such a template. */
  lemma TemplateTextFields(inReplyTo: Option<string>, to: seq<Addr>, cc: Option<seq<Addr>>,
                           bcc: Option<seq<Addr>>, subject: string, account: Account, env: Collaborators)
    ensures var f := ReadFields(Trimmed(TplHeaders(inReplyTo, Some(to), cc, bcc, subject, NoOverride, account, env)), env);
      f.messageId == None && f.inReplyTo == TrimmedOption(inReplyTo) && f.subject == Text.Trim(subject)
  {
    TemplateLastValue(inReplyTo, to, cc, bcc, subject, account, env, "message-id");
    TemplateLastValue(inReplyTo, to, cc, bcc, subject, account, env, "in-reply-to");
    TemplateLastValue(inReplyTo, to, cc, bcc, subject, account, env, "subject");
  }

  /** The address fields of such a template. */
  lemma TemplateAddrFields(inReplyTo: Option<string>, to: seq<Addr>, cc: Option<seq<Addr>>,
                           bcc: Option<seq<Addr>>, subject: string, account: Account, env: Collaborators)
    requires to != [] && Addresses.ShowsBack(to, env)
    requires cc.Some? ==> cc.value != [] && Addresses.ShowsBack(cc.value, env)
    requires bcc.Some? ==> bcc.value != [] && Addresses.ShowsBack(bcc.value, env)
    ensures var f := ReadFields(Trimmed(TplHeaders(inReplyTo, Some(to), cc, bcc, subject, NoOverride, account, env)), env);
      f.from == AccountFrom(account, env) && f.to == Some(to) && f.replyTo == None && f.cc == cc && f.bcc == bcc
  {
    TemplateSenderFields(inReplyTo, to, cc, bcc, subject, account, env);
    TemplateCopyFields(inReplyTo, to, cc, bcc, subject, account, env);
  }

  /** The sender and main recipients of such a template. */
  lemma TemplateSenderFields(inReplyTo: Option<string>, to: seq<Addr>, cc: Option<seq<Addr>>,
                             bcc: Option<seq<Addr>>, subject: string, account: Account, env: Collaborators)
    requires to != [] && Addresses.ShowsBack(to, env)
    ensures var f := ReadFields(Trimmed(TplHeaders(inReplyTo, Some(to), cc, bcc, subject, NoOverride, account, env)), env);
      f.from == AccountFrom(account, env) && f.to == Some(to) && f.replyTo == None
  {
    var hs := Trimmed(TplHeaders(inReplyTo, Some(to), cc, bcc, subject, NoOverride, account, env));
    TemplateLastValue(inReplyTo, to, cc, bcc, subject, account, env, "from");
    TemplateLastValue(inReplyTo, to, cc, bcc, subject, account, env, "to");
    TemplateLastValue(inReplyTo, to, cc, bcc, subject, account, env, "reply-to");
    ReadBackAddrs(hs, "to", to, env);
  }

  /** The copy recipients of such a template. */
  lemma TemplateCopyFields(inReplyTo: Option<string>, to: seq<Addr>, cc: Option<seq<Addr>>,
                           bcc: Option<seq<Addr>>, subject: string, account: Account, env: Collaborators)
    requires cc.Some? ==> cc.value != [] && Addresses.ShowsBack(cc.value, env)
    requires bcc.Some? ==> bcc.value != [] && Addresses.ShowsBack(bcc.value, env)
    ensures var f := ReadFields(Trimmed(TplHeaders(inReplyTo, Some(to), cc, bcc, subject, NoOverride, account, env)), env);
      f.cc == cc && f.bcc == bcc
  {
    var hs := Trimmed(TplHeaders(inReplyTo, Some(to), cc, bcc, subject, NoOverride, account, env));
    TemplateLastValue(inReplyTo, to, cc, bcc, subject, account, env, "cc");
    if cc.Some? { ReadBackAddrs(hs, "cc", cc.value, env); }
    TemplateLastValue(inReplyTo, to, cc, bcc, subject, account, env, "bcc");
    if bcc.Some? { ReadBackAddrs(hs, "bcc", bcc.value, env); }
  }

  /** A template written for a message without recipients has an empty `To` header, which the
      comma-split parser rejects: such a template cannot be read back, whatever else it holds. */
  lemma EmptyToHeaderFails(to: Option<seq<Addr>>, inReplyTo: Option<string>, cc: Option<seq<Addr>>,
                           bcc: Option<seq<Addr>>, subject: string, account: Account, env: Collaborators,
                           value: seq<byte>)
    requires to.None? || to == Some([])
    requires env.parseMailbox("").None?
    requires env.decodeUtf8(value) == Some("")
    ensures Header("To", "") in TplHeaders(inReplyTo, to, cc, bcc, subject, NoOverride, account, env)
    ensures HeaderFailure(RawHeader("To", value), env) == Some(HeaderError("To", AddressListError("", AddressError(""))))
  {
    RenderedKeys();
    Addresses.EmptyValueIsAnError(env);
    var hs := TplHeaders(inReplyTo, to, cc, bcc, subject, NoOverride, account, env);
    var k := 2 + |OptionalHeader("In-Reply-To", inReplyTo)|;
    assert hs[k] == Header("To", "");
  }
}
