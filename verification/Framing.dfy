/**
 * The newline framing of the daemon connection (sdk/security/boundary-daemon.ts): data arrives in
 * chunks cut anywhere, complete lines are handed on, the rest waits in a buffer.
 */
module Framing {

  const NEWLINE: char := '\n'

  /** The pieces of a text between its newlines; one more than there are newlines. */
  function Split(text: string): (lines: seq<string>)
    ensures |lines| > 0
  {
    if text == "" then [""] else Extend(Split(text[..|text| - 1]), text[|text| - 1])
  }

  /** The pieces when the text goes on by one character. */
  function Extend(lines: seq<string>, c: char): (longer: seq<string>)
    requires |lines| > 0
    ensures |longer| > 0
  {
    if c == NEWLINE then lines + [""] else lines[|lines| - 1 := lines[|lines| - 1] + [c]]
  }

  /** The pieces with newlines put between them. */
  function Join(lines: seq<string>): string
    requires |lines| > 0
  {
    if |lines| == 1 then lines[0]
    else Join(lines[..|lines| - 1]) + [NEWLINE] + lines[|lines| - 1]
  }

  predicate IsLine(text: string) {
    NEWLINE !in text
  }

  ghost predicate AreLines(lines: seq<string>) {
    forall i :: 0 <= i < |lines| ==> IsLine(lines[i])
  }

  /** The white space and line ends that trimming removes. */
  predicate IsSpace(c: char) {
    var code := c as int;
    || 0x09 <= code <= 0x0d || code == 0x20 || code == 0xa0 || code == 0x1680 || 0x2000 <= code <= 0x200a
    || code == 0x2028 || code == 0x2029 || code == 0x202f || code == 0x205f || code == 0x3000 || code == 0xfeff
  }

  function TrimStart(s: string): string {
    if s != "" && IsSpace(s[0]) then TrimStart(s[1..]) else s
  }

  function TrimEnd(s: string): string {
    if s != "" && IsSpace(s[|s| - 1]) then TrimEnd(s[..|s| - 1]) else s
  }

  /** The text without white space at its ends. */
  function Trim(s: string): string {
    TrimEnd(TrimStart(s))
  }

  /** The lines that are not empty when trimmed. */
  function NonBlank(lines: seq<string>): seq<string> {
    if lines == [] then []
    else
      var n := |lines| - 1;
      NonBlank(lines[..n]) + (if Trim(lines[n]) == "" then [] else [lines[n]])
  }

  /** What has been handed on so far, and what waits. */
  datatype Reader = Reader(delivered: seq<string>, buffer: string)

  /** The pieces handed on, and the one that waits. */
  function Taken(delivered: seq<string>, lines: seq<string>): Reader
    requires |lines| > 0
  {
    Reader(delivered + NonBlank(lines[..|lines| - 1]), lines[|lines| - 1])
  }

  function Feed(r: Reader, data: string): Reader {
    Taken(r.delivered, Split(r.buffer + data))
  }

  function FeedAll(r: Reader, chunks: seq<string>): Reader {
    if chunks == [] then r
    else
      var n := |chunks| - 1;
      Feed(FeedAll(r, chunks[..n]), chunks[n])
  }

  function Concat(chunks: seq<string>): string {
    if chunks == [] then "" else Concat(chunks[..|chunks| - 1]) + chunks[|chunks| - 1]
  }

  /** Each message followed by a newline. */
  function Printed(messages: seq<string>): string {
    if messages == [] then ""
    else Printed(messages[..|messages| - 1]) + messages[|messages| - 1] + [NEWLINE]
  }

  // ----- trimming -----

  /** The white space of the language, by its code points. */
  lemma SpaceCodes(c: char)
    ensures IsSpace(c)
       <==> c as int in {0x09, 0x0a, 0x0b, 0x0c, 0x0d, 0x20, 0xa0, 0x1680, 0x2000, 0x2001, 0x2002, 0x2003, 0x2004,
                         0x2005, 0x2006, 0x2007, 0x2008, 0x2009, 0x200a, 0x2028, 0x2029, 0x202f, 0x205f, 0x3000,
                         0xfeff}
  {
  }

  lemma {:induction false} TrimStartCut(s: string) returns (i: nat)
    ensures i <= |s| && TrimStart(s) == s[i..]
    ensures forall k :: 0 <= k < i ==> IsSpace(s[k])
    ensures i < |s| ==> !IsSpace(s[i])
  {
    hide IsSpace;
    if s != "" && IsSpace(s[0]) {
      var j := TrimStartCut(s[1..]);
      i := j + 1;
      assert forall k :: 1 <= k < i ==> s[k] == s[1..][k - 1];
      assert s[1..][j..] == s[i..];
    } else {
      i := 0;
    }
  }

  lemma {:induction false} TrimEndCut(s: string) returns (j: nat)
    ensures j <= |s| && TrimEnd(s) == s[..j]
    ensures forall k :: j <= k < |s| ==> IsSpace(s[k])
    ensures j > 0 ==> !IsSpace(s[j - 1])
  {
    hide IsSpace;
    if s != "" && IsSpace(s[|s| - 1]) {
      j := TrimEndCut(s[..|s| - 1]);
      assert s[..|s| - 1][..j] == s[..j];
    } else {
      j := |s|;
    }
  }

  /** What trimming does: white space before `i` and from `j` on goes, and nothing else can go. */
  lemma TrimCut(s: string) returns (i: nat, j: nat)
    ensures i <= j <= |s| && Trim(s) == s[i..j]
    ensures forall k :: 0 <= k < i || j <= k < |s| ==> IsSpace(s[k])
    ensures i < j ==> !IsSpace(s[i]) && !IsSpace(s[j - 1])
  {
    hide IsSpace, TrimStart, TrimEnd;
    i := TrimStartCut(s);
    var m := TrimEndCut(s[i..]);
    j := i + m;
    assert forall k :: j <= k < |s| ==> s[k] == s[i..][k - i];
    assert s[i..][..m] == s[i..j];
    if i < j {
      assert s[j - 1] == s[i..][m - 1];
    }
  }

  /** Nothing is left exactly of a text that is white space throughout. */
  lemma TrimmedToNothing(s: string)
    ensures Trim(s) != "" <==> exists c :: c in s && !IsSpace(c)
  {
    hide IsSpace, Trim;
    var i, j := TrimCut(s);
  }

  // ----- splitting is the inverse of joining -----

  lemma SplitSnoc(text: string, c: char)
    ensures Split(text + [c]) == Extend(Split(text), c)
  {
    assert (text + [c])[..|text|] == text;
  }

  lemma JoinSplit(text: string)
    ensures Join(Split(text)) == text
  {
    JoinSplitPrefix(text, |text|);
    assert text[..|text|] == text;
  }

  lemma {:induction false} JoinSplitPrefix(text: string, n: nat)
    requires n <= |text|
    ensures Join(Split(text[..n])) == text[..n]
  {
    if n > 0 {
      hide Split, Join;
      JoinSplitPrefix(text, n - 1);
      JoinSplitSnoc(text[..n - 1], text[n - 1]);
      assert text[..n] == text[..n - 1] + [text[n - 1]];
    }
  }

  lemma JoinSplitSnoc(text: string, c: char)
    requires Join(Split(text)) == text
    ensures Join(Split(text + [c])) == text + [c]
  {
    hide Split, Extend, Join;
    var lines := Split(text);
    var m := |lines| - 1;
    SplitSnoc(text, c);
    JoinExtend(lines[..m], lines[m], c);
    assert lines[..m] + [lines[m]] == lines;
  }

  lemma ExtendLast(init: seq<string>, last: string, c: char)
    requires c != NEWLINE
    ensures Extend(init + [last], c) == init + [last + [c]]
  {
  }

  lemma JoinExtend(init: seq<string>, last: string, c: char)
    ensures Join(Extend(init + [last], c)) == Join(init + [last]) + [c]
  {
    hide Join;
    if c == NEWLINE {
      JoinSnoc(init + [last], "");
      AppendNothing(Join(init + [last]) + [NEWLINE]);
    } else {
      ExtendLast(init, last, c);
      hide Extend;
      if init == [] {
        JoinOne(last);
        JoinOne(last + [c]);
      } else {
        JoinSnoc(init, last);
        JoinSnoc(init, last + [c]);
        AppendTwice(Join(init) + [NEWLINE], last, [c]);
      }
    }
  }

  lemma AppendNothing(s: string)
    ensures s + "" == s
  {
  }

  lemma AppendTwice(s: string, t: string, u: string)
    ensures s + (t + u) == s + t + u
  {
  }

  lemma JoinOne(line: string)
    ensures Join([line]) == line && Join([] + [line]) == line
  {
    assert [] + [line] == [line];
  }

  lemma JoinSnoc(lines: seq<string>, line: string)
    requires |lines| > 0
    ensures Join(lines + [line]) == Join(lines) + [NEWLINE] + line
  {
    assert (lines + [line])[..|lines|] == lines;
  }

  lemma {:induction false} PiecesAreLines(text: string)
    ensures AreLines(Split(text))
  {
    if text != "" {
      var init := text[..|text| - 1];
      PiecesAreLines(init);
      var lines := Split(init);
      hide Split;
      assert IsLine(lines[|lines| - 1]);
    }
  }

  lemma {:induction false} SplitLine(line: string)
    requires IsLine(line)
    ensures Split(line) == [line]
  {
    if line != "" {
      SplitLine(line[..|line| - 1]);
      assert line == line[..|line| - 1] + [line[|line| - 1]];
    }
  }

  lemma ExtendAfter(before: seq<string>, lines: seq<string>, c: char)
    requires |lines| > 0
    ensures Extend(before + lines, c) == before + Extend(lines, c)
  {
  }

  /** Text already split can be kept: only the last piece and what follows are split again. */
  lemma {:induction false} SplitAppend(s: string, t: string)
    ensures var first, n := Split(s), |Split(s)| - 1;
      Split(s + t) == first[..n] + Split(first[n] + t)
  {
    var first := Split(s);
    var n := |first| - 1;
    if t == "" {
      PiecesAreLines(s);
      SplitLine(first[n]);
      hide Split;
      assert s + t == s && first[n] + t == first[n];
    } else {
      var init, c := t[..|t| - 1], t[|t| - 1];
      hide Split, Extend;
      SplitAppend(s, init);
      assert t == init + [c];
      AppendTwice(s, init, [c]);
      AppendTwice(first[n], init, [c]);
      SplitSnoc(s + init, c);
      SplitSnoc(first[n] + init, c);
      ExtendAfter(first[..n], Split(first[n] + init), c);
    }
  }

  /** Any newline-free pieces come back. */
  lemma {:induction false} SplitJoin(lines: seq<string>)
    requires |lines| > 0 && AreLines(lines)
    ensures Split(Join(lines)) == lines
  {
    var n := |lines| - 1;
    if n == 0 {
      SplitLine(lines[0]);
    } else {
      SplitJoin(lines[..n]);
      SplitThenLine(Join(lines[..n]), lines[n]);
      hide Split;
      assert lines == lines[..n] + [lines[n]];
    }
  }

  /** A line after a newline is one more piece. */
  lemma SplitThenLine(text: string, line: string)
    requires IsLine(line)
    ensures Split(text + [NEWLINE] + line) == Split(text) + [line]
  {
    SplitSnoc(text, NEWLINE);
    SplitAppend(text + [NEWLINE], line);
    SplitLine(line);
    hide Split;
    assert "" + line == line;
    assert (Split(text) + [""])[..|Split(text)|] == Split(text);
  }

  // ----- chunks -----

  lemma {:induction false} NonBlankAppend(a: seq<string>, b: seq<string>)
    ensures NonBlank(a + b) == NonBlank(a) + NonBlank(b)
  {
    if b == [] {
      assert a + b == a;
    } else {
      var m := |b| - 1;
      NonBlankAppend(a, b[..m]);
      assert (a + b)[..|a + b| - 1] == a + b[..m] && (a + b)[|a + b| - 1] == b[m];
    }
  }

  lemma TakenAppend(delivered: seq<string>, before: seq<string>, lines: seq<string>)
    requires |lines| > 0
    ensures Taken(delivered, before + lines) == Taken(delivered + NonBlank(before), lines)
  {
    hide NonBlank;
    var m, all := |lines| - 1, before + lines;
    NonBlankAppend(before, lines[..m]);
    assert all[..|all| - 1] == before + lines[..m] && all[|all| - 1] == lines[m];
    AppendLists(delivered, NonBlank(before), NonBlank(lines[..m]));
  }

  lemma AppendLists(s: seq<string>, t: seq<string>, u: seq<string>)
    ensures s + (t + u) == s + t + u
  {
  }

  /** Two chunks do what their concatenation does. */
  lemma FeedAppend(r: Reader, s: string, t: string)
    ensures Feed(Feed(r, s), t) == Feed(r, s + t)
  {
    var first := Split(r.buffer + s);
    var n := |first| - 1;
    SplitAppend(r.buffer + s, t);
    hide Split, NonBlank;
    assert r.buffer + s + t == r.buffer + (s + t);
    TakenAppend(r.delivered, first[..n], Split(first[n] + t));
    hide Taken;
  }

  /** However the stream is cut into chunks, the same lines are handed on and the same text waits. */
  lemma {:induction false} ChunkingIndependence(r: Reader, chunks: seq<string>)
    requires IsLine(r.buffer)
    ensures FeedAll(r, chunks) == Feed(r, Concat(chunks))
  {
    if chunks == [] {
      assert r.buffer + "" == r.buffer;
      SplitLine(r.buffer);
      assert r.delivered + NonBlank([]) == r.delivered;
    } else {
      var n := |chunks| - 1;
      ChunkingIndependence(r, chunks[..n]);
      FeedAppend(r, Concat(chunks[..n]), chunks[n]);
      hide Feed;
    }
  }

  /** Data without a newline waits, behind what waits already. */
  lemma PartialLineWaits(r: Reader, data: string)
    requires IsLine(r.buffer + data)
    ensures Feed(r, data) == Reader(r.delivered, r.buffer + data)
  {
    SplitLine(r.buffer + data);
    hide Split;
    assert [r.buffer + data][..0] == [];
    assert r.delivered + NonBlank([]) == r.delivered;
  }

  /** A line completed by its newline is handed on, if some character of it is not white space. */
  lemma LineHandedOn(r: Reader, data: string)
    requires IsLine(r.buffer + data)
    ensures var line := r.buffer + data;
      Feed(r, data + [NEWLINE])
        == Reader(
             r.delivered + (if exists c :: c in line && !IsSpace(c) then [line] else []), "")
  {
    var line := r.buffer + data;
    SplitLine(line);
    SplitSnoc(line, NEWLINE);
    TrimmedToNothing(line);
    hide Split, IsSpace, Trim, IsLine;
    assert r.buffer + (data + [NEWLINE]) == line + [NEWLINE];
    OneLineTaken(r.delivered, line);
  }

  lemma OneLineTaken(delivered: seq<string>, line: string)
    ensures Taken(delivered, [line] + [""]) == Reader(delivered + (if Trim(line) == "" then [] else [line]), "")
    ensures Taken(delivered, Extend([line], NEWLINE)) == Taken(delivered, [line] + [""])
  {
    hide Trim;
    assert ([line] + [""])[..1] == [line];
    assert [line][..0] == [];
    assert NonBlank([line]) == if Trim(line) == "" then [] else [line];
  }

  // ----- messages -----

  /** One more line after text that ends in a newline. */
  lemma SplitOneMore(before: string, init: seq<string>, line: string)
    requires Split(before) == init + [""] && IsLine(line)
    ensures Split(before + line + [NEWLINE]) == init + [line] + [""]
  {
    SplitAppend(before, line);
    SplitLine(line);
    SplitSnoc(before + line, NEWLINE);
    hide Split;
    assert "" + line == line;
    assert (init + [""])[..|init|] == init;
  }

  lemma {:induction false} SplitPrinted(messages: seq<string>)
    requires AreLines(messages)
    ensures Split(Printed(messages)) == messages + [""]
  {
    if messages == [] {
      assert Split("") == [""];
    } else {
      var n := |messages| - 1;
      SplitPrinted(messages[..n]);
      SplitOneMore(Printed(messages[..n]), messages[..n], messages[n]);
      hide Split;
      assert messages[..n] + [messages[n]] == messages;
    }
  }

  /** Of messages printed one a line and cut into any chunks, exactly those that trim to nothing are lost. */
  lemma PrintedThenRead(messages: seq<string>, chunks: seq<string>)
    requires AreLines(messages) && Concat(chunks) == Printed(messages)
    ensures FeedAll(Reader([], ""), chunks) == Reader(NonBlank(messages), "")
  {
    ChunkingIndependence(Reader([], ""), chunks);
    SplitPrinted(messages);
    hide Split, FeedAll, NonBlank;
    assert "" + Printed(messages) == Printed(messages);
    assert (messages + [""])[..|messages|] == messages;
    assert [] + NonBlank(messages) == NonBlank(messages);
  }

  lemma {:induction false} NonBlankIsAll(lines: seq<string>)
    ensures |NonBlank(lines)| <= |lines|
    ensures if forall line :: line in lines ==> Trim(line) != "" then NonBlank(lines) == lines
            else |NonBlank(lines)| < |lines|
  {
    hide Trim;
    if lines != [] {
      var n := |lines| - 1;
      NonBlankIsAll(lines[..n]);
      assert lines == lines[..n] + [lines[n]];
    }
  }

  /** The messages come back exactly when each of them has some character that is not white space. */
  lemma MessagesRecovered(messages: seq<string>, chunks: seq<string>)
    requires AreLines(messages) && Concat(chunks) == Printed(messages)
    ensures FeedAll(Reader([], ""), chunks) == Reader(messages, "")
       <==> forall line :: line in messages ==> exists c :: c in line && !IsSpace(c)
  {
    PrintedThenRead(messages, chunks);
    NonBlankIsAll(messages);
    forall line | line in messages
      ensures Trim(line) != "" <==> exists c :: c in line && !IsSpace(c)
    {
      TrimmedToNothing(line);
    }
    hide Trim, IsSpace, FeedAll, Printed, Concat, NonBlank;
  }

  // ----- the connection -----

  class DaemonConnection {
    var messageBuffer: string
    /** The lines handed to the message parser. */
    var delivered: seq<string>
    /** The text written to the socket. */
    var written: string

    constructor ()
      ensures State() == Reader([], "") && written == ""
    {
      messageBuffer, delivered, written := "", [], "";
    }

    function State(): Reader
      reads this
    {
      Reader(delivered, messageBuffer)
    }

    method HandleData(data: string)
      modifies `messageBuffer, `delivered
      ensures State() == Feed(old(State()), data)
      ensures IsLine(old(messageBuffer) + data) ==>
                messageBuffer == old(messageBuffer) + data && delivered == old(delivered)
    {
      hide Split, Trim;
      ghost var before := State();
      messageBuffer := messageBuffer + data;
      var lines := Split(messageBuffer);
      messageBuffer := lines[|lines| - 1];
      lines := lines[..|lines| - 1];
      for i := 0 to |lines|
        invariant messageBuffer == Feed(old(State()), data).buffer
        invariant delivered == old(delivered) + NonBlank(lines[..i])
      {
        var line := lines[i];
        assert lines[..i + 1][..i] == lines[..i];
        if Trim(line) == "" {
          continue;
        }
        delivered := delivered + [line];
      }
      assert lines[..|lines|] == lines;
      if IsLine(before.buffer + data) {
        PartialLineWaits(before, data);
      }
    }

    /** The data events of a connection, one after the other, amount to one with the whole stream. */
    method HandleStream(chunks: seq<string>)
      requires IsLine(messageBuffer)
      modifies `messageBuffer, `delivered
      ensures State() == Feed(old(State()), Concat(chunks))
    {
      ghost var r := State();
      for i := 0 to |chunks|
        invariant State() == FeedAll(r, chunks[..i])
      {
        HandleData(chunks[i]);
        assert chunks[..i + 1][..i] == chunks[..i];
      }
      assert chunks[..|chunks|] == chunks;
      ChunkingIndependence(r, chunks);
    }

    /** The line that a request is sent as. */
    method WriteMessage(message: string, ghost sent: seq<string>)
      requires written == Printed(sent)
      modifies `written
      ensures written == Printed(sent + [message])
    {
      written := written + (message + [NEWLINE]);
      assert (sent + [message])[..|sent|] == sent;
    }
  }
}
