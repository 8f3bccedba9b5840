/** What `into_forward` writes as the body of the forwarded message: a banner, the header fields
    of the original message, a blank line and the original text. The method itself is
    `Message.Msg.IntoForward`. */
module Forward {
  import opened Wrappers
  import opened Externals
  import Text
  import Addresses

  /** The line that opens the forwarded part, after two empty lines. */
  const Banner: string := "-------- Forwarded Message --------"

  /** "Date: " and the date in RFC 2822 form, on a line of its own; nothing without a date. */
  function DateLine(date: Option<DateTime>, env: Collaborators): string {
    match date
    case Some(d) => "Date: " + env.rfc2822(d) + "\n"
    case None => ""
  }

  /** `field` and the addresses shown and joined by ", ", on a line of its own; nothing without addresses. */
  function AddrLine(field: string, addrs: Option<seq<Addr>>, env: Collaborators): string {
    match addrs
    case Some(l) => field + Addresses.DisplayAddrs(l, env) + "\n"
    case None => ""
  }

  /** The body of a forward: the banner, the original subject, date, sender and recipients, a blank
      line and `previous`, the original text. */
  function ForwardBody(subject: string, date: Option<DateTime>, from: Option<seq<Addr>>,
                       to: Option<seq<Addr>>, previous: string, env: Collaborators): string
  {
    Opening(subject) + DateLine(date, env) + AddrLine("From: ", from, env) + AddrLine("To: ", to, env)
    + "\n" + previous
  }

  /** Two empty lines, the banner and the original subject. */
  function Opening(subject: string): string {
    "\n\n" + Banner + "\n" + "Subject: " + subject + "\n"
  }

  /** A header line of the forward, present only with a value. */
  function OptionalLine(field: string, value: Option<string>): (r: seq<string>)
    ensures value.None? <==> r == []
  {
    match value
    case Some(v) => [field + v]
    case None => []
  }

  /** The value shown on the "Date: " line. */
  function DateValue(date: Option<DateTime>, env: Collaborators): Option<string> {
    match date
    case Some(d) => Some(env.rfc2822(d))
    case None => None
  }

  /** The value shown on an address line. */
  function AddrValue(addrs: Option<seq<Addr>>, env: Collaborators): Option<string> {
    match addrs
    case Some(l) => Some(Addresses.DisplayAddrs(l, env))
    case None => None
  }

  /** The lines a forward opens with, before the original text: two empty lines, the banner, the
      subject, the date, sender and recipient lines that have a value, in that order, and an empty line. */
  function HeaderBlock(subject: string, date: Option<DateTime>, from: Option<seq<Addr>>,
                       to: Option<seq<Addr>>, env: Collaborators): seq<string>
  {
    OpeningLines(subject)
    + OptionalLine("Date: ", DateValue(date, env))
    + OptionalLine("From: ", AddrValue(from, env))
    + OptionalLine("To: ", AddrValue(to, env))
    + [""]
  }

  /** The lines of the opening, without their newlines. */
  function OpeningLines(subject: string): (r: seq<string>)
    ensures Text.Terminated(r) == Opening(subject)
  {
    TerminatedFour("", "", Banner, "Subject: " + subject);
    ["", "", Banner, "Subject: " + subject]
  }

  /** One optional line, written with its newline. */
  lemma OptionalLineTerminated(field: string, value: Option<string>, written: string)
    requires value.None? ==> written == ""
    requires value.Some? ==> written == field + value.value + "\n"
    ensures Text.Terminated(OptionalLine(field, value)) == written
  {
    if value.Some? {
      assert OptionalLine(field, value)[1..] == [];
    }
  }

  /** Four lines, written with their newlines. */
  lemma TerminatedFour(a: string, b: string, c: string, d: string)
    ensures Text.Terminated([a, b, c, d]) == a + "\n" + b + "\n" + c + "\n" + d + "\n"
  {
    assert [a, b, c, d][..3] == [a, b, c];
    assert [a, b, c][..2] == [a, b];
    assert [a, b][..1] == [a] && [a][..0] == [];
    assert Text.Terminated([a]) == a + "\n";
    assert Text.Terminated([a, b]) == a + "\n" + b + "\n";
    assert Text.Terminated([a, b, c]) == a + "\n" + b + "\n" + c + "\n";
  }

  /** Runs of lines written one after the other, then an empty line, then any text. */
  lemma TerminatedLayout(h: seq<string>, d: seq<string>, f: seq<string>, t: seq<string>,
                         hs: string, ds: string, fs: string, ts: string, rest: string)
    requires Text.Terminated(h) == hs && Text.Terminated(d) == ds
    requires Text.Terminated(f) == fs && Text.Terminated(t) == ts
    ensures hs + ds + fs + ts + "\n" + rest == Text.Terminated(h + d + f + t + [""]) + rest
  {
    Text.TerminatedAppend(h + d + f, t);
    Text.TerminatedAppend(h + d, f);
    Text.TerminatedAppend(h, d);
    var all := h + d + f + t;
    assert (all + [""])[..|all + [""]| - 1] == all;
    assert Text.Terminated(all + [""]) == Text.Terminated(all) + "" + "\n";
  }

  /** The body of a forward is its header block, one line each, followed by the original text. */
  lemma ForwardBodyIsHeaderBlock(subject: string, date: Option<DateTime>, from: Option<seq<Addr>>,
                                 to: Option<seq<Addr>>, previous: string, env: Collaborators)
    ensures ForwardBody(subject, date, from, to, previous, env)
         == Text.Terminated(HeaderBlock(subject, date, from, to, env)) + previous
  {
    OptionalLineTerminated("Date: ", DateValue(date, env), DateLine(date, env));
    OptionalLineTerminated("From: ", AddrValue(from, env), AddrLine("From: ", from, env));
    OptionalLineTerminated("To: ", AddrValue(to, env), AddrLine("To: ", to, env));
    TerminatedLayout(OpeningLines(subject),
      OptionalLine("Date: ", DateValue(date, env)),
      OptionalLine("From: ", AddrValue(from, env)),
      OptionalLine("To: ", AddrValue(to, env)),
      Opening(subject),
      DateLine(date, env), AddrLine("From: ", from, env), AddrLine("To: ", to, env), previous);
  }

  /** Read back line by line, a forward shows the original header fields, each on a line of its own
      and present exactly when the original had it, then the lines of the original text; this holds
      as long as none of the shown values spans several lines. */
  lemma ForwardBodyLines(subject: string, date: Option<DateTime>, from: Option<seq<Addr>>,
                         to: Option<seq<Addr>>, previous: string, env: Collaborators)
    requires '\n' !in subject
    requires date.Some? ==> '\n' !in env.rfc2822(date.value)
    requires from.Some? ==> '\n' !in Addresses.DisplayAddrs(from.value, env)
    requires to.Some? ==> '\n' !in Addresses.DisplayAddrs(to.value, env)
    ensures Text.Split(ForwardBody(subject, date, from, to, previous, env), '\n')
         == HeaderBlock(subject, date, from, to, env) + Text.Split(previous, '\n')
  {
    ForwardBodyIsHeaderBlock(subject, date, from, to, previous, env);
    HeaderBlockOneLineEach(subject, date, from, to, env);
    Text.SplitTerminated(HeaderBlock(subject, date, from, to, env), previous);
  }

  /** The banner is a single line. */
  lemma BannerOneLine()
    ensures '\n' !in Banner
  {
    assert forall i :: 0 <= i < |Banner| ==> Banner[i] == '-' || Banner[i] == ' ' || 'A' <= Banner[i] <= 'z';
  }

  /** No line of the opening holds a newline when the subject holds none. */
  lemma OpeningOneLineEach(subject: string)
    requires '\n' !in subject
    ensures forall i :: 0 <= i < |OpeningLines(subject)| ==> '\n' !in OpeningLines(subject)[i]
  {
    BannerOneLine();
    assert '\n' !in "Subject: " + subject by {
      assert forall i :: 0 <= i < |"Subject: "| ==> "Subject: "[i] != '\n';
    }
  }

  /** No line of the header block holds a newline when no value shown in it does. */
  lemma HeaderBlockOneLineEach(subject: string, date: Option<DateTime>, from: Option<seq<Addr>>,
                               to: Option<seq<Addr>>, env: Collaborators)
    requires '\n' !in subject
    requires date.Some? ==> '\n' !in env.rfc2822(date.value)
    requires from.Some? ==> '\n' !in Addresses.DisplayAddrs(from.value, env)
    requires to.Some? ==> '\n' !in Addresses.DisplayAddrs(to.value, env)
    ensures var block := HeaderBlock(subject, date, from, to, env);
      forall i :: 0 <= i < |block| ==> '\n' !in block[i]
  {
    var o := OpeningLines(subject);
    var d := OptionalLine("Date: ", DateValue(date, env));
    var f := OptionalLine("From: ", AddrValue(from, env));
    var t := OptionalLine("To: ", AddrValue(to, env));
    OpeningOneLineEach(subject);
    assert forall i :: 0 <= i < |d| ==> '\n' !in d[i];
    assert forall i :: 0 <= i < |f| ==> '\n' !in f[i];
    assert forall i :: 0 <= i < |t| ==> '\n' !in t[i];
    assert HeaderBlock(subject, date, from, to, env) == o + d + f + t + [""];
  }
}
