/** Address lists: the comma-split parser of template headers (`parse_addr`, `parse_addrs`), their
    display as a comma-separated list, the conversion of fetched address lists (`to_addrs`,
    `to_some_addrs`), and the choice of envelope sender and recipients. */
module Addresses {
  import opened Wrappers
  import opened Externals
  import Text

  /** `parse_addr`: the trimmed string parsed as a mailbox; the error names the untrimmed string. */
  function ParseAddr(raw: string, env: Collaborators): (r: Result<Addr, Error>)
    ensures r.Ok? <==> env.parseMailbox(Text.Trim(raw)).Some?
    ensures r.Err? ==> r.error == AddressError(raw)
  {
    match env.parseMailbox(Text.Trim(raw))
    case Some(a) => Ok(a)
    case None => Err(AddressError(raw))
  }

  /** Every piece parses as an address once trimmed. */
  predicate AllParse(pieces: seq<string>, env: Collaborators) {
    forall i :: 0 <= i < |pieces| ==> env.parseMailbox(Text.Trim(pieces[i])).Some?
  }

  /** The pieces parsed one after the other; the first that fails stops the parse, and the error
      carries the whole header value `raw`. */
  function ParseEach(pieces: seq<string>, raw: string, env: Collaborators): (r: Result<seq<Addr>, Error>)
    ensures r.Ok? <==> AllParse(pieces, env)
    ensures r.Ok? ==> |r.value| == |pieces|
    ensures r.Ok? ==> forall i :: 0 <= i < |pieces| ==> Some(r.value[i]) == env.parseMailbox(Text.Trim(pieces[i]))
  {
    if pieces == [] then Ok([])
    else
      match ParseAddr(pieces[0], env)
      case Err(e) => Err(AddressListError(raw, e))
      case Ok(a) =>
        match ParseEach(pieces[1..], raw, env)
        case Err(e) => Err(e)
        case Ok(rest) => Ok([a] + rest)
  }

  /** The error of `ParseEach` is the one of the first piece that does not parse. */
  lemma {:induction false} ParseEachFirstFailure(pieces: seq<string>, i: nat, raw: string, env: Collaborators)
    requires i < |pieces|
    requires forall k :: 0 <= k < i ==> env.parseMailbox(Text.Trim(pieces[k])).Some?
    requires env.parseMailbox(Text.Trim(pieces[i])).None?
    ensures ParseEach(pieces, raw, env) == Err(AddressListError(raw, AddressError(pieces[i])))
  {
    if i > 0 {
      assert env.parseMailbox(Text.Trim(pieces[0])).Some?;
      ParseEachFirstFailure(pieces[1..], i - 1, raw, env);
    }
  }

  /** When every piece parses, `ParseEach` gives exactly the parsed addresses. */
  lemma {:induction false} ParseEachOk(pieces: seq<string>, addrs: seq<Addr>, raw: string, env: Collaborators)
    requires |addrs| == |pieces|
    requires forall k :: 0 <= k < |pieces| ==> Some(addrs[k]) == env.parseMailbox(Text.Trim(pieces[k]))
    ensures ParseEach(pieces, raw, env) == Ok(addrs)
  {
    if pieces != [] {
      assert Some(addrs[0]) == env.parseMailbox(Text.Trim(pieces[0]));
      ParseEachOk(pieces[1..], addrs[1..], raw, env);
      assert addrs == [addrs[0]] + addrs[1..];
    }
  }

  /** `parse_addrs`, as a specification: every comma-separated piece parsed. */
  function ParsedAddrs(raw: string, env: Collaborators): (r: Result<Option<seq<Addr>>, Error>)
    ensures r.Ok? <==> AllParse(Text.Split(raw, ','), env)
    ensures r.Ok? ==> r.value.Some? && |r.value.value| == |Text.Split(raw, ',')|
    ensures r.Ok? ==> |r.value.value| == multiset(raw)[','] + 1
    ensures r.Ok? ==> forall i :: 0 <= i < |r.value.value| ==>
                        Some(r.value.value[i]) == env.parseMailbox(Text.Trim(Text.Split(raw, ',')[i]))
  {
    Text.SplitCount(raw, ',');
    match ParseEach(Text.Split(raw, ','), raw, env)
    case Err(e) => Err(e)
    case Ok(addrs) => Ok(if addrs == [] then None else Some(addrs))
  }

  /** An empty header value is an error as long as the empty string is not an address. */
  lemma EmptyValueIsAnError(env: Collaborators)
    requires env.parseMailbox("").None?
    ensures ParsedAddrs("", env) == Err(AddressListError("", AddressError("")))
  {
    assert Text.Split("", ',') == [""];
    assert Text.Trim("") == "";
    ParseEachFirstFailure([""], 0, "", env);
  }

  /** `parse_addrs`: split the value on every comma, parse each trimmed piece, stop at the first
      failure. */
  method ParseAddrs(raw: string, env: Collaborators) returns (r: Result<Option<seq<Addr>>, Error>)
    ensures r == ParsedAddrs(raw, env)
  {
    var pieces := Text.Split(raw, ',');
    var addrs: seq<Addr> := [];
    var i := 0;
    while i < |pieces|
      invariant 0 <= i <= |pieces|
      invariant |addrs| == i
      invariant forall k :: 0 <= k < i ==> Some(addrs[k]) == env.parseMailbox(Text.Trim(pieces[k]))
    {
      var parsed := ParseAddr(pieces[i], env);
      if parsed.Err? {
        ParseEachFirstFailure(pieces, i, raw, env);
        return Err(AddressListError(raw, parsed.error));
      }
      addrs := addrs + [parsed.value];
      i := i + 1;
    }
    ParseEachOk(pieces, addrs, raw, env);
    r := Ok(if addrs == [] then None else Some(addrs));
  }

  /** Each address shown as a string (`addr.to_string()`), in order. */
  function ShowAll(addrs: seq<Addr>, env: Collaborators): (r: seq<string>)
    ensures |r| == |addrs|
    ensures forall i :: 0 <= i < |addrs| ==> r[i] == env.showMailbox(addrs[i])
  {
    seq(|addrs|, i requires 0 <= i < |addrs| => env.showMailbox(addrs[i]))
  }

  /** An address list as the templates and the forwarded header block show it: comma and space between. */
  function DisplayAddrs(addrs: seq<Addr>, env: Collaborators): string {
    Text.JoinWith(ShowAll(addrs, env), ", ")
  }

  /** The `push_str` loop of `into_forward` that writes an address list after `content`, with a glue
      that is empty before the first address and `", "` before the others. */
  method PushAddrs(content: string, addrs: seq<Addr>, env: Collaborators) returns (out: string)
    ensures out == content + DisplayAddrs(addrs, env)
  {
    out := content;
    var glue := "";
    var i := 0;
    while i < |addrs|
      invariant 0 <= i <= |addrs|
      invariant glue == if i == 0 then "" else ", "
      invariant out == content + DisplayAddrs(addrs[..i], env)
    {
      Text.JoinWithSnoc(ShowAll(addrs[..i], env), env.showMailbox(addrs[i]), ", ");
      assert ShowAll(addrs[..i + 1], env) == ShowAll(addrs[..i], env) + [env.showMailbox(addrs[i])];
      out := out + glue + env.showMailbox(addrs[i]);
      glue := ", ";
      i := i + 1;
    }
    assert addrs[..i] == addrs;
  }

  /** Every address shows as a non-empty string without commas and without surrounding whitespace,
      and that string parses back to the address. A display name holding a comma breaks this. */
  predicate ShowsBack(addrs: seq<Addr>, env: Collaborators) {
    forall i :: 0 <= i < |addrs| ==>
      var shown := env.showMailbox(addrs[i]);
      shown != "" && ',' !in shown && Text.NoEdgeWhitespace(shown) && env.parseMailbox(shown) == Some(addrs[i])
  }

  /** Reading a displayed list back with the comma-split parser gives the list again, provided the
      list is not empty and every address shows back. */
  lemma DisplayThenParse(addrs: seq<Addr>, env: Collaborators)
    requires addrs != [] && ShowsBack(addrs, env)
    ensures ParsedAddrs(Text.Trim(DisplayAddrs(addrs, env)), env) == Ok(Some(addrs))
  {
    var shown := ShowAll(addrs, env);
    var display := DisplayAddrs(addrs, env);
    DisplayHasNoEdgeWhitespace(shown);
    Text.TrimIdentity(display);
    var pieces := SplitDisplayed(shown);
    forall k | 0 <= k < |pieces|
      ensures Some(addrs[k]) == env.parseMailbox(Text.Trim(pieces[k]))
    {
      TrimPadded(shown[k], k > 0);
    }
    ParseEachOk(pieces, addrs, display, env);
  }

  /** Splitting a displayed list on commas gives the shown addresses, all but the first led by a space. */
  lemma SplitDisplayed(shown: seq<string>) returns (pieces: seq<string>)
    requires shown != []
    requires forall i :: 0 <= i < |shown| ==> ',' !in shown[i]
    ensures pieces == PadAfterFirst(shown)
    ensures Text.Split(Text.JoinWith(shown, ", "), ',') == pieces
  {
    pieces := PadAfterFirst(shown);
    JoinWithCommaSpace(shown);
    forall i | 0 <= i < |pieces| ensures ',' !in pieces[i] {
      assert pieces[i] == (if i == 0 then "" else " ") + shown[i];
    }
    Text.SplitJoin(pieces, ',');
  }

  /** The pieces a comma split yields from a displayed list: every address but the first keeps the
      space that followed the comma. */
  function PadAfterFirst(shown: seq<string>): (r: seq<string>)
    ensures |r| == |shown|
    ensures forall i :: 0 <= i < |shown| ==> r[i] == (if i == 0 then "" else " ") + shown[i]
  {
    seq(|shown|, i requires 0 <= i < |shown| => (if i == 0 then "" else " ") + shown[i])
  }

  /** Joining with `", "` is joining the padded pieces with `","`. */
  lemma {:induction false} JoinWithCommaSpace(shown: seq<string>)
    requires shown != []
    ensures Text.JoinWith(shown, ", ") == Text.JoinWith(PadAfterFirst(shown), [','])
  {
    if |shown| > 1 {
      var rest := shown[1..];
      JoinWithCommaSpace(rest);
      JoinPaddedTail(rest);
      assert PadAfterFirst(shown)[1..] == PadAll(rest);
    }
  }

  /** Every piece with a leading space. */
  function PadAll(shown: seq<string>): (r: seq<string>)
    ensures |r| == |shown|
    ensures forall i :: 0 <= i < |shown| ==> r[i] == " " + shown[i]
  {
    seq(|shown|, i requires 0 <= i < |shown| => " " + shown[i])
  }

  /** A join of space-led pieces is a space followed by the join that pads all but the first. */
  lemma {:induction false} JoinPaddedTail(shown: seq<string>)
    requires shown != []
    ensures Text.JoinWith(PadAll(shown), [',']) == " " + Text.JoinWith(PadAfterFirst(shown), [','])
  {
    if |shown| > 1 {
      assert PadAll(shown)[1..] == PadAll(shown[1..]);
      assert PadAfterFirst(shown)[1..] == PadAll(shown[1..]);
    }
  }

  /** A displayed list of non-empty strings without edge whitespace has none either. */
  lemma DisplayHasNoEdgeWhitespace(shown: seq<string>)
    requires shown != []
    requires forall i :: 0 <= i < |shown| ==> shown[i] != "" && Text.NoEdgeWhitespace(shown[i])
    ensures Text.NoEdgeWhitespace(Text.JoinWith(shown, ", "))
  {
    Text.JoinWithEdges(shown, ", ");
    var j := Text.JoinWith(shown, ", ");
    var first := shown[0];
    var last := shown[|shown| - 1];
    assert j[0] == first[0];
    assert j[|j| - 1] == last[|last| - 1];
  }

  /** Trimming a piece that was padded by at most one space gives the shown address back. */
  lemma TrimPadded(s: string, padded: bool)
    requires Text.NoEdgeWhitespace(s)
    ensures Text.Trim((if padded then " " else "") + s) == s
  {
    var t := (if padded then " " else "") + s;
    if padded {
      assert Text.TrimStart(t) == Text.TrimStart(s) by {
        assert t[0] == ' ' && t[1..] == s;
      }
    }
    Text.TrimIdentity(s);
  }

  /** `to_addrs`, as a specification: each fetched address converted, the first failure stopping it. */
  function ConvertAll<A>(addrs: seq<A>, toAddr: A -> Result<Addr, Error>): (r: Result<seq<Addr>, Error>)
    ensures r.Ok? <==> forall i :: 0 <= i < |addrs| ==> toAddr(addrs[i]).Ok?
    ensures r.Ok? ==> |r.value| == |addrs| && forall i :: 0 <= i < |addrs| ==> Ok(r.value[i]) == toAddr(addrs[i])
  {
    if addrs == [] then Ok([])
    else
      match toAddr(addrs[0])
      case Err(e) => Err(ImapAddressError(e))
      case Ok(a) =>
        match ConvertAll(addrs[1..], toAddr)
        case Err(e) => Err(e)
        case Ok(rest) => Ok([a] + rest)
  }

  /** The error of `ConvertAll` is the one of the first address that does not convert. */
  lemma {:induction false} ConvertAllFirstFailure<A>(addrs: seq<A>, i: nat, toAddr: A -> Result<Addr, Error>)
    requires i < |addrs|
    requires forall k :: 0 <= k < i ==> toAddr(addrs[k]).Ok?
    requires toAddr(addrs[i]).Err?
    ensures ConvertAll(addrs, toAddr) == Err(ImapAddressError(toAddr(addrs[i]).error))
  {
    if i > 0 {
      assert toAddr(addrs[0]).Ok?;
      ConvertAllFirstFailure(addrs[1..], i - 1, toAddr);
    }
  }

  /** `to_addrs`: the `push` loop over the fetched addresses. */
  method ToAddrs<A>(addrs: seq<A>, toAddr: A -> Result<Addr, Error>) returns (r: Result<seq<Addr>, Error>)
    ensures r == ConvertAll(addrs, toAddr)
  {
    var parsed: seq<Addr> := [];
    var i := 0;
    while i < |addrs|
      invariant 0 <= i <= |addrs|
      invariant |parsed| == i
      invariant forall k :: 0 <= k < i ==> toAddr(addrs[k]) == Ok(parsed[k])
    {
      var converted := toAddr(addrs[i]);
      if converted.Err? {
        ConvertAllFirstFailure(addrs, i, toAddr);
        return Err(ImapAddressError(converted.error));
      }
      parsed := parsed + [converted.value];
      i := i + 1;
    }
    var spec := ConvertAll(addrs, toAddr);
    assert spec.Ok?;
    forall k | 0 <= k < |parsed| ensures spec.value[k] == parsed[k] {
      assert toAddr(addrs[k]) == Ok(spec.value[k]);
    }
    assert spec.value == parsed;
    r := Ok(parsed);
  }

  /** `to_some_addrs`: an absent list stays absent and a present one stays present, of the same length. */
  function ToSomeAddrs<A>(addrs: Option<seq<A>>, toAddr: A -> Result<Addr, Error>)
    : (r: Result<Option<seq<Addr>>, Error>)
    ensures addrs.None? ==> r == Ok(None)
    ensures addrs.Some? ==> (r.Ok? <==> forall i :: 0 <= i < |addrs.value| ==> toAddr(addrs.value[i]).Ok?)
    ensures addrs.Some? && r.Ok? ==> r.value.Some? && |r.value.value| == |addrs.value|
  {
    match addrs
    case None => Ok(None)
    case Some(l) =>
      match ConvertAll(l, toAddr)
      case Err(e) => Err(e)
      case Ok(converted) => Ok(Some(converted))
  }

  /** The envelope's sender and recipients (`TryInto<Envelope>`): the e-mail of the first `from` address
      if there is one, and the e-mails of every `to` address in order (none when `to` is absent). */
  function EnvelopeParties(from: Option<seq<Addr>>, to: Option<seq<Addr>>)
    : (r: (Option<string>, seq<string>))
    ensures r.0.Some? <==> from.Some? && from.value != []
    ensures r.0.Some? ==> r.0.value == from.value[0].email
    ensures to.None? ==> r.1 == []
    ensures to.Some? ==> |r.1| == |to.value| && forall i :: 0 <= i < |to.value| ==> r.1[i] == to.value[i].email
  {
    var sender := if from.Some? && from.value != [] then Some(from.value[0].email) else None;
    var recipients := match to
      case None => []
      case Some(l) => seq(|l|, i requires 0 <= i < |l| => l[i].email);
    (sender, recipients)
  }
}
