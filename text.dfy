/** The string operations of Rust's standard library that the message code relies on:
    `trim`, `starts_with`, `split(',')`, `join`, `lines` and the lower-casing of header keys. */
module Text {

  /** Unicode White_Space, the characters Rust's `str::trim` removes. */
  predicate IsWhitespace(c: char) {
    c == ' ' || ('\t' <= c <= '\r') || c == '\U{85}' || c == '\U{A0}' || c == '\U{1680}'
    || ('\U{2000}' <= c <= '\U{200A}') || c == '\U{2028}' || c == '\U{2029}'
    || c == '\U{202F}' || c == '\U{205F}' || c == '\U{3000}'
  }

  /** Neither the first nor the last character is whitespace. */
  predicate NoEdgeWhitespace(s: string) {
    s == "" || (!IsWhitespace(s[0]) && !IsWhitespace(s[|s| - 1]))
  }

  /** Rust's `trim_start`: the suffix left after dropping leading whitespace (what is dropped is
      stated by `TrimStartDropsWhitespace`). */
  function TrimStart(s: string): (r: string)
    ensures |r| <= |s|
    ensures r == "" || !IsWhitespace(r[0])
    ensures r != "" ==> r[|r| - 1] == s[|s| - 1]
  {
    if s != "" && IsWhitespace(s[0]) then TrimStart(s[1..]) else s
  }

  /** Rust's `trim_end`: the prefix left after dropping trailing whitespace (what is dropped is
      stated by `TrimEndDropsWhitespace`). */
  function TrimEnd(s: string): (r: string)
    ensures |r| <= |s|
    ensures r == "" || !IsWhitespace(r[|r| - 1])
    ensures r != "" ==> r[0] == s[0]
  {
    if s != "" && IsWhitespace(s[|s| - 1]) then TrimEnd(s[..|s| - 1]) else s
  }

  /** `trim_start` keeps a suffix and drops only whitespace before it. */
  lemma {:induction false} TrimStartDropsWhitespace(s: string)
    ensures var r := TrimStart(s); r == s[|s| - |r|..]
    ensures var r := TrimStart(s); forall i :: 0 <= i < |s| - |r| ==> IsWhitespace(s[i])
  {
    if s != "" && IsWhitespace(s[0]) {
      TrimStartDropsWhitespace(s[1..]);
      var r := TrimStart(s);
      assert r == s[1..][|s| - 1 - |r|..];
      forall i | 0 <= i < |s| - |r| ensures IsWhitespace(s[i]) {
        if i > 0 { assert s[i] == s[1..][i - 1]; }
      }
    }
  }

  /** `trim_end` keeps a prefix and drops only whitespace after it. */
  lemma {:induction false} TrimEndDropsWhitespace(s: string)
    ensures var r := TrimEnd(s); r == s[..|r|]
    ensures var r := TrimEnd(s); forall i :: |r| <= i < |s| ==> IsWhitespace(s[i])
  {
    if s != "" && IsWhitespace(s[|s| - 1]) {
      TrimEndDropsWhitespace(s[..|s| - 1]);
      var r := TrimEnd(s);
      assert r == s[..|s| - 1][..|r|];
      forall i | |r| <= i < |s| ensures IsWhitespace(s[i]) {
        if i < |s| - 1 { assert s[i] == s[..|s| - 1][i]; }
      }
    }
  }

  /** Rust's `trim`. */
  function Trim(s: string): (r: string)
    ensures NoEdgeWhitespace(r)
    ensures |r| <= |s|
  {
    TrimEnd(TrimStart(s))
  }

  /** Trimming changes nothing when there is no whitespace at either end. */
  lemma TrimIdentity(s: string)
    requires NoEdgeWhitespace(s)
    ensures Trim(s) == s
  {
  }

  /** Trimming twice is trimming once. */
  lemma TrimIdempotent(s: string)
    ensures Trim(Trim(s)) == Trim(s)
  {
    TrimIdentity(Trim(s));
  }

  /** Rust's `starts_with` with a string pattern. */
  predicate StartsWith(s: string, prefix: string) {
    |prefix| <= |s| && s[..|prefix|] == prefix
  }

  /** Rust's `[String]::join(glue)`: the pieces with `glue` between consecutive ones. */
  function JoinWith(pieces: seq<string>, glue: string): string {
    if |pieces| == 0 then ""
    else if |pieces| == 1 then pieces[0]
    else pieces[0] + glue + JoinWith(pieces[1..], glue)
  }

  /** Appending one more piece appends the glue and the piece (what a `push_str` loop with a glue variable does). */
  lemma {:induction false} JoinWithSnoc(pieces: seq<string>, last: string, glue: string)
    ensures JoinWith(pieces + [last], glue)
         == if pieces == [] then last else JoinWith(pieces, glue) + glue + last
  {
    if |pieces| == 0 {
      assert pieces + [last] == [last];
    } else if |pieces| == 1 {
      assert (pieces + [last])[1..] == [last];
    } else {
      assert (pieces + [last])[1..] == pieces[1..] + [last];
      JoinWithSnoc(pieces[1..], last, glue);
    }
  }

  /** A joined string starts with the first piece and ends with the last one. */
  lemma {:induction false} JoinWithEdges(pieces: seq<string>, glue: string)
    requires |pieces| >= 1
    ensures StartsWith(JoinWith(pieces, glue), pieces[0])
    ensures var j := JoinWith(pieces, glue); var l := pieces[|pieces| - 1];
      |l| <= |j| && j[|j| - |l|..] == l
  {
    if |pieces| > 1 {
      JoinWithEdges(pieces[1..], glue);
      var rest := JoinWith(pieces[1..], glue);
      assert JoinWith(pieces, glue) == (pieces[0] + glue) + rest;
    }
  }

  /** Rust's `split(sep)` with a `char` pattern: never empty, and no piece holds `sep`. */
  function Split(s: string, sep: char): (r: seq<string>)
    ensures |r| >= 1
    ensures forall i :: 0 <= i < |r| ==> sep !in r[i]
    decreases |s|
  {
    if s == "" then [""]
    else if s[0] == sep then [""] + Split(s[1..], sep)
    else
      var rest := Split(s[1..], sep);
      [[s[0]] + rest[0]] + rest[1..]
  }

  /** Splitting yields one more piece than there are separators. */
  lemma {:induction false} SplitCount(s: string, sep: char)
    ensures |Split(s, sep)| == multiset(s)[sep] + 1
  {
    if s != "" {
      SplitCount(s[1..], sep);
      assert s == [s[0]] + s[1..];
      assert multiset(s) == multiset([s[0]]) + multiset(s[1..]);
    }
  }

  /** Joining the pieces back with the separator gives the original string. */
  lemma {:induction false} JoinSplit(s: string, sep: char)
    ensures JoinWith(Split(s, sep), [sep]) == s
  {
    if s != "" {
      var rest := Split(s[1..], sep);
      JoinSplit(s[1..], sep);
      if s[0] == sep {
        JoinWithCons("", rest, [sep]);
      } else {
        JoinWithGrowFirst(s[0], rest, [sep]);
      }
      assert s == [s[0]] + s[1..];
    }
  }

  /** Joining a first piece before others puts the glue between them. */
  lemma JoinWithCons(first: string, rest: seq<string>, glue: string)
    requires rest != []
    ensures JoinWith([first] + rest, glue) == first + glue + JoinWith(rest, glue)
  {
    assert ([first] + rest)[1..] == rest;
  }

  /** Growing the first piece by one character at its front grows the join the same way. */
  lemma JoinWithGrowFirst(c: char, pieces: seq<string>, glue: string)
    requires pieces != []
    ensures JoinWith([[c] + pieces[0]] + pieces[1..], glue) == [c] + JoinWith(pieces, glue)
  {
    var grown := [[c] + pieces[0]] + pieces[1..];
    if |pieces| > 1 {
      assert grown[1..] == pieces[1..];
    }
  }

  /** A string without the separator splits into itself. */
  lemma {:induction false} SplitWithoutSep(s: string, sep: char)
    requires sep !in s
    ensures Split(s, sep) == [s]
  {
    if s != "" {
      SplitWithoutSep(s[1..], sep);
      assert [s[0]] + s[1..] == s;
    }
  }

  /** A leading piece free of the separator, then the separator, splits off as one piece. */
  lemma {:induction false} SplitAfterPiece(p: string, sep: char, t: string)
    requires sep !in p
    ensures Split(p + [sep] + t, sep) == [p] + Split(t, sep)
  {
    if p == "" {
      assert p + [sep] + t == [sep] + t;
      assert ([sep] + t)[1..] == t;
    } else {
      var s := p + [sep] + t;
      assert s[0] == p[0] && s[1..] == p[1..] + [sep] + t;
      SplitAfterPiece(p[1..], sep, t);
      assert [p[0]] + p[1..] == p;
    }
  }

  /** Splitting undoes joining, when no piece holds the separator. */
  lemma {:induction false} SplitJoin(pieces: seq<string>, sep: char)
    requires |pieces| >= 1
    requires forall i :: 0 <= i < |pieces| ==> sep !in pieces[i]
    ensures Split(JoinWith(pieces, [sep]), sep) == pieces
  {
    if |pieces| == 1 {
      SplitWithoutSep(pieces[0], sep);
    } else {
      SplitJoin(pieces[1..], sep);
      SplitAfterPiece(pieces[0], sep, JoinWith(pieces[1..], [sep]));
      assert [pieces[0]] + pieces[1..] == pieces;
    }
  }

  /** Each line followed by a newline, as a sequence of `push_str(line); push('\n')` writes. */
  function Terminated(lines: seq<string>): string {
    if lines == [] then "" else Terminated(lines[..|lines| - 1]) + lines[|lines| - 1] + "\n"
  }

  /** Terminating two runs of lines one after the other is terminating them together. */
  lemma {:induction false} TerminatedAppend(a: seq<string>, b: seq<string>)
    ensures Terminated(a + b) == Terminated(a) + Terminated(b)
  {
    if b == [] {
      assert a + b == a;
    } else {
      var b' := b[..|b| - 1];
      assert (a + b)[..|a + b| - 1] == a + b';
      TerminatedAppend(a, b');
    }
  }

  /** Newline-terminated lines free of newlines, followed by any text, split back into those lines
      followed by the pieces of the text. */
  lemma {:induction false} SplitTerminated(lines: seq<string>, rest: string)
    requires forall i :: 0 <= i < |lines| ==> '\n' !in lines[i]
    ensures Split(Terminated(lines) + rest, '\n') == lines + Split(rest, '\n')
  {
    if lines != [] {
      SplitTerminated(lines[1..], rest);
      TerminatedCons(lines);
      AppendRegroup(lines[0], "\n", Terminated(lines[1..]), rest);
      SplitAfterPiece(lines[0], '\n', Terminated(lines[1..]) + rest);
      assert lines == [lines[0]] + lines[1..];
      LinesRegroup([lines[0]], lines[1..], Split(rest, '\n'));
    } else {
      assert Terminated(lines) + rest == rest;
    }
  }

  /** Regrouping a concatenation of four strings. */
  lemma AppendRegroup(a: string, b: string, c: string, d: string)
    ensures a + b + c + d == a + b + (c + d)
  {
  }

  /** Regrouping a concatenation of three runs of lines. */
  lemma LinesRegroup(a: seq<string>, b: seq<string>, c: seq<string>)
    ensures a + (b + c) == a + b + c
  {
  }

  /** The first line, terminated, then the others. */
  lemma TerminatedCons(lines: seq<string>)
    requires lines != []
    ensures Terminated(lines) == lines[0] + "\n" + Terminated(lines[1..])
  {
    TerminatedAppend([lines[0]], lines[1..]);
    assert [lines[0]] + lines[1..] == lines;
    assert [lines[0]][..0] == [];
  }

  /** The position of the first `c` in `s`. */
  function IndexOf(s: string, c: char): (k: nat)
    requires c in s
    ensures k < |s| && s[k] == c && c !in s[..k]
  {
    if s[0] == c then 0
    else
      assert s == [s[0]] + s[1..];
      var k := IndexOf(s[1..], c);
      assert s[..k + 1] == [s[0]] + s[1..][..k];
      k + 1
  }

  /** A line ending's optional carriage return, removed. */
  function StripCr(line: string): string {
    if line != "" && line[|line| - 1] == '\r' then line[..|line| - 1] else line
  }

  /** Rust's `str::lines`: pieces ending at each `\n` (with a preceding `\r` dropped), a final
      unterminated piece kept as it is, and no empty piece after a final `\n`. */
  function Lines(s: string): (r: seq<string>)
    ensures forall i :: 0 <= i < |r| ==> '\n' !in r[i]
    ensures s == "" <==> r == []
    decreases |s|
  {
    if s == "" then []
    else if '\n' !in s then [s]
    else
      var k := IndexOf(s, '\n');
      [StripCr(s[..k])] + Lines(s[k + 1..])
  }

  /** ASCII lower-casing of one character. */
  function LowerChar(c: char): char {
    if 'A' <= c <= 'Z' then (c as int + 32) as char else c
  }

  /** ASCII lower-casing of a header key. On the keys the template parser recognises this agrees with
      Rust's Unicode `to_lowercase` (see README). */
  function ToLowerAscii(s: string): (r: string)
    ensures |r| == |s|
    ensures forall i :: 0 <= i < |s| ==> r[i] == LowerChar(s[i])
  {
    seq(|s|, i requires 0 <= i < |s| => LowerChar(s[i]))
  }

  /** The lower-cased form of a string, character by character. */
  lemma ToLowerAsciiOf(s: string, t: string)
    requires |s| == |t| && forall i :: 0 <= i < |s| ==> LowerChar(s[i]) == t[i]
    ensures ToLowerAscii(s) == t
  {
  }
}
