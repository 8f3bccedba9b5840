/** What `into_reply` computes, as functions of the fields it reads: the recipients, the prefixed
    subject, the sender named in the attribution line and the quoted body. The method itself is
    `Message.Msg.IntoReply`. */
module Reply {
  import opened Wrappers
  import opened Externals
  import Text

  /** `DEFAULT_SIG_DELIM` of the configuration module, the line at which quoting stops. */
  const DefaultSigDelim: string := "-- \n"

  // ---------------------------------------------------------------------------------------------
  // Recipients

  /** The addresses of the list that differ from `me`, in their order. */
  function Without(addrs: seq<Addr>, me: Addr): (r: seq<Addr>)
    ensures |r| <= |addrs|
    ensures forall i :: 0 <= i < |r| ==> r[i] != me
  {
    if addrs == [] then []
    else (if addrs[0] == me then [] else [addrs[0]]) + Without(addrs[1..], me)
  }

  /** Filtering out `me` filters a concatenation piecewise: the remaining addresses keep their
      original order. */
  lemma {:induction false} WithoutAppend(a: seq<Addr>, b: seq<Addr>, me: Addr)
    ensures Without(a + b, me) == Without(a, me) + Without(b, me)
  {
    if a == [] {
      assert a + b == b;
    } else {
      assert (a + b)[1..] == a[1..] + b;
      WithoutAppend(a[1..], b, me);
    }
  }

  /** Filtering out `me` keeps exactly the other addresses. */
  lemma {:induction false} WithoutKeepsOthers(addrs: seq<Addr>, me: Addr)
    ensures forall x :: x in Without(addrs, me) <==> x in addrs && x != me
  {
    if addrs != [] {
      WithoutKeepsOthers(addrs[1..], me);
      assert addrs == [addrs[0]] + addrs[1..];
    }
  }

  /** A list that does not hold `me` is kept whole. */
  lemma {:induction false} WithoutAbsent(addrs: seq<Addr>, me: Addr)
    requires me !in addrs
    ensures Without(addrs, me) == addrs
  {
    if addrs != [] {
      WithoutAbsent(addrs[1..], me);
      assert addrs == [addrs[0]] + addrs[1..];
    }
  }

  /** The new `to` of a reply: the addresses of `reply_to`, or of `from` when there is no `reply_to`,
      without the account address; all of them for a reply to all, only the first otherwise (absent
      when none is left). */
  function ReplyRecipients(replyTo: Option<seq<Addr>>, from: Option<seq<Addr>>, me: Addr, all: bool)
    : (r: Option<seq<Addr>>)
    ensures r.Some? ==> forall i :: 0 <= i < |r.value| ==> r.value[i] != me
    ensures !all && r.Some? ==> |r.value| == 1
    ensures all ==> (r.Some? <==> replyTo.Some? || from.Some?)
  {
    match replyTo.Or(from)
    case None => None
    case Some(addrs) =>
      var kept := Without(addrs, me);
      if all then Some(kept) else if kept == [] then None else Some([kept[0]])
  }

  /** A single reply goes to the first address of the source list that is not the account's own. */
  lemma {:induction false} SingleReplyTakesFirstOther(addrs: seq<Addr>, me: Addr)
    ensures Without(addrs, me) == [] <==> forall i :: 0 <= i < |addrs| ==> addrs[i] == me
    ensures Without(addrs, me) != [] ==>
      (exists k :: 0 <= k < |addrs| && Without(addrs, me)[0] == addrs[k] && addrs[k] != me
         && (forall j :: 0 <= j < k ==> addrs[j] == me))
  {
    if addrs != [] {
      SingleReplyTakesFirstOther(addrs[1..], me);
      if addrs[0] == me && Without(addrs, me) != [] {
        var k :| 0 <= k < |addrs[1..]| && Without(addrs[1..], me)[0] == addrs[1..][k]
          && addrs[1..][k] != me && forall j :: 0 <= j < k ==> addrs[1..][j] == me;
        assert Without(addrs, me)[0] == addrs[k + 1];
        assert forall j :: 0 <= j < k + 1 ==> addrs[j] == me by {
          forall j | 0 <= j < k + 1 ensures addrs[j] == me {
            if j > 0 { assert addrs[j] == addrs[1..][j - 1]; }
          }
        }
      }
      if addrs[0] != me {
        assert Without(addrs, me)[0] == addrs[0];
      }
      if Without(addrs, me) == [] {
        assert addrs[0] == me;
      }
    }
  }

  /** Because `into_reply` overwrites `from` with the account address before it chooses the
      recipients, a message without `reply_to` is answered to nobody: `to` becomes absent for a single
      reply and empty for a reply to all, whoever sent it. */
  lemma ReplyWithoutReplyToHasNoRecipient(me: Addr, all: bool)
    ensures ReplyRecipients(None, Some([me]), me, all) == if all then Some([]) else None
  {
    assert [me][1..] == [];
    assert Without([me], me) == [];
  }

  /** A reply to all keeps every address of `reply_to` but the account's own, in order. */
  lemma ReplyAllKeepsReplyTo(replyTo: seq<Addr>, from: Option<seq<Addr>>, me: Addr)
    ensures ReplyRecipients(Some(replyTo), from, me, true) == Some(Without(replyTo, me))
    ensures me !in replyTo ==> ReplyRecipients(Some(replyTo), from, me, true) == Some(replyTo)
  {
    if me !in replyTo { WithoutAbsent(replyTo, me); }
  }

  // ---------------------------------------------------------------------------------------------
  // Subject

  /** The subject with `marker` and a space put in front, unless it already starts with `marker`. */
  function Prefixed(subject: string, marker: string): (r: string)
    ensures Text.StartsWith(r, marker)
    ensures Text.StartsWith(subject, marker) ==> r == subject
    ensures !Text.StartsWith(subject, marker) ==> r == marker + " " + subject
  {
    if Text.StartsWith(subject, marker) then subject else marker + " " + subject
  }

  /** Prefixing twice is prefixing once: replying to a reply does not give "Re: Re: ". */
  lemma PrefixedIdempotent(subject: string, marker: string)
    ensures Prefixed(Prefixed(subject, marker), marker) == Prefixed(subject, marker)
  {
  }

  // ---------------------------------------------------------------------------------------------
  // Attribution line

  /** The name shown in the attribution line: the first address of `reply_to`, or of `from` when
      there is no `reply_to`, by its display name or else its e-mail; "unknown sender" when that list
      is absent or empty. */
  function SenderName(replyTo: Option<seq<Addr>>, from: Option<seq<Addr>>): (r: string)
    ensures replyTo.Some? && replyTo.value != [] ==> r == replyTo.value[0].name.GetOr(replyTo.value[0].email)
    ensures replyTo.None? && from.Some? && from.value != [] ==> r == from.value[0].name.GetOr(from.value[0].email)
    ensures (replyTo.Some? && replyTo.value == []) || (replyTo.None? && (from.None? || from.value == []))
        ==> r == "unknown sender"
  {
    match replyTo.Or(from)
    case Some(addrs) =>
      if addrs == [] then "unknown sender" else addrs[0].name.GetOr(addrs[0].email)
    case None => "unknown sender"
  }

  /** The date shown in the attribution line: formatted, or "unknown date". */
  function DateText(date: Option<DateTime>, env: Collaborators): string {
    match date
    case Some(d) => env.formatDate(d)
    case None => "unknown date"
  }

  /** The line that opens the reply body, after two empty lines. */
  function Attribution(dateText: string, sender: string): string {
    "\n\nOn " + dateText + ", " + sender + " wrote:\n"
  }

  // ---------------------------------------------------------------------------------------------
  // Quoted body

  /** One quoted line: `>` then a space unless the line already starts with `>`, then the line. */
  function QuoteLine(line: string): (r: string)
    ensures r != [] && r[0] == '>'
    ensures Text.StartsWith(line, ">") ==> r == ">" + line
    ensures !Text.StartsWith(line, ">") ==> r == "> " + line
  {
    ">" + (if Text.StartsWith(line, ">") then "" else " ") + line
  }

  /** Every line quoted, in order. */
  function QuoteAll(lines: seq<string>): (r: seq<string>)
    ensures |r| == |lines|
    ensures forall i :: 0 <= i < |lines| ==> r[i] == QuoteLine(lines[i])
  {
    seq(|lines|, i requires 0 <= i < |lines| => QuoteLine(lines[i]))
  }

  /** The lines before the first one equal to `delim` (all of them when none is). */
  function UntilDelimiter(lines: seq<string>, delim: string): (r: seq<string>)
    ensures |r| <= |lines| && r == lines[..|r|]
    ensures delim !in r
    ensures |r| < |lines| ==> lines[|r|] == delim
  {
    if lines == [] || lines[0] == delim then []
    else [lines[0]] + UntilDelimiter(lines[1..], delim)
  }

  /** A prefix free of `delim` that is followed by `delim` or ends the lines is the one `UntilDelimiter` takes. */
  lemma UntilDelimiterUnique(lines: seq<string>, delim: string, n: nat)
    requires n <= |lines|
    requires forall k :: 0 <= k < n ==> lines[k] != delim
    requires n == |lines| || lines[n] == delim
    ensures UntilDelimiter(lines, delim) == lines[..n]
  {
    var r := UntilDelimiter(lines, delim);
    if |r| != n {
      assert false;
    }
  }

  /** The quoted part of a reply: the trimmed plain body cut into lines, cut at the first line equal to
      `delim`, each line quoted, joined by newlines. */
  function QuotedBody(plain: string, delim: string): string {
    Text.JoinWith(QuoteAll(UntilDelimiter(Text.Lines(Text.Trim(plain)), delim)), "\n")
  }

  /** The body of a reply. */
  function ReplyBody(dateText: string, sender: string, plain: string): string {
    Attribution(dateText, sender) + QuotedBody(plain, DefaultSigDelim)
  }

  /** Read back line by line, the quoted part of a reply is the quoted original lines, each starting with `>`. */
  lemma QuotedBodyLines(plain: string, delim: string)
    requires UntilDelimiter(Text.Lines(Text.Trim(plain)), delim) != []
    ensures Text.Split(QuotedBody(plain, delim), '\n') == QuoteAll(UntilDelimiter(Text.Lines(Text.Trim(plain)), delim))
    ensures forall l :: l in Text.Split(QuotedBody(plain, delim), '\n') ==> l != [] && l[0] == '>'
  {
    var lines := UntilDelimiter(Text.Lines(Text.Trim(plain)), delim);
    var quoted := QuoteAll(lines);
    forall i | 0 <= i < |quoted| ensures '\n' !in quoted[i] {
      assert lines[i] == Text.Lines(Text.Trim(plain))[i];
      assert quoted[i] == ">" + (if Text.StartsWith(lines[i], ">") then "" else " ") + lines[i];
    }
    Text.SplitJoin(quoted, '\n');
  }

  /** A delimiter that holds a newline never equals a line, so quoting then covers every line. */
  lemma {:induction false} DelimiterWithNewlineNeverStops(text: string, delim: string)
    requires '\n' in delim
    ensures UntilDelimiter(Text.Lines(text), delim) == Text.Lines(text)
  {
    var lines := Text.Lines(text);
    forall k | 0 <= k < |lines| ensures lines[k] != delim {
      assert '\n' !in lines[k];
    }
    UntilDelimiterUnique(lines, delim, |lines|);
  }

  /** `DEFAULT_SIG_DELIM` ends with a newline, so a reply quotes the whole original body, signature
      included. */
  lemma ReplyQuotesSignature(plain: string)
    ensures QuotedBody(plain, DefaultSigDelim) == Text.JoinWith(QuoteAll(Text.Lines(Text.Trim(plain))), "\n")
  {
    assert DefaultSigDelim[3] == '\n';
    DelimiterWithNewlineNeverStops(Text.Trim(plain), DefaultSigDelim);
  }
}
