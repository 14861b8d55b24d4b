/** Exactly which lines are headers, and what they say. */
module HeaderLines {
  import opened CText
  import opened HttpGrammar
  import opened HttpParser
  import opened HttpRoundTrip
  import opened LineText
  import opened Wrappers

  /** A name, a colon, and a value with white space around it. */
  datatype Spelled = Spelled(name: string, white: string, value: string, after: string)

  function LineOf(h: Spelled): string {
    h.name + ":" + h.white + h.value + h.after
  }

  predicate IsHeader(h: Spelled) {
    && NoneOf(h.name, ":\0") && Blank(h.white) && Blank(h.after)
    && (h.value != "" ==> !IsSpace(h.value[0]) && !IsSpace(h.value[|h.value| - 1]))
    && (h.value == "" ==> h.white == "")
  }

  lemma NameEnds(h: Spelled)
    requires IsHeader(h)
    ensures var s := h.name + ":" + h.white + h.value; TrimEnd(LineOf(h)) == s && Find(s, ':') == |h.name| < |s|
  {
    var s := h.name + ":" + h.white + h.value;
    if h.value != "" {
      assert s[|s| - 1] == h.value[|h.value| - 1];
    } else {
      assert s[|s| - 1] == ':';
    }
    TrimEndOf(s, h.after);
    assert s[|h.name|] == ':';
    FindFirst(s, ':', 0, |h.name|);
  }

  lemma ValueStarts(h: Spelled)
    requires IsHeader(h)
    ensures var s := h.name + ":" + h.white + h.value; s[SkipSpace(s, |h.name| + 1)..] == h.value
  {
    var s, i := h.name + ":" + h.white + h.value, |h.name| + 1;
    var n := i + |h.white|;
    assert s[i..n] == h.white;
    assert n < |s| ==> s[n] == h.value[0];
    SkipsWhite(s, i, n);
  }

  /** A header is reported with the name in front of the first colon and the value without the white space around
      it. */
  lemma HeaderIsRead(c: Client, m: Machine, h: Spelled, tail: string)
    requires m.phase == Headers && IsHeader(h) && OneLine(LineOf(h))
    ensures var (m', result) := HeaderLine(c, m, h.name, h.value);
      Run(c, m, LineOf(h) + "\n" + tail) == if result.Done? then Final(m', tail, result) else Run(c, m', tail)
  {
    NameEnds(h);
    ValueStarts(h);
    var s := h.name + ":" + h.white + h.value;
    assert s[..|h.name|] == h.name;
    RunAnyLine(c, m, LineOf(h), tail);
  }

  lemma {:induction false} FoundIsFirst(s: string, c: char, i: nat)
    requires i <= |s| && Find(s, c, i) < |s|
    ensures s[Find(s, c, i)] == c && forall k | i <= k < Find(s, c, i) :: s[k] != c && s[k] != '\0'
    decreases |s| - i
  {
    if s[i] != c {
      FoundIsFirst(s, c, i + 1);
    }
  }

  lemma NameFound(s: string)
    requires Find(s, ':') < |s|
    ensures s[Find(s, ':')] == ':' && NoneOf(s[..Find(s, ':')], ":\0")
  {
    FoundIsFirst(s, ':', 0);
  }

  lemma ValueFound(s: string, i: nat, v: nat)
    requires 0 < i <= v <= |s| && v == SkipSpace(s, i) && !IsSpace(s[|s| - 1])
    ensures Blank(s[i..v]) && (v == |s| ==> i == v) && (v < |s| ==> !IsSpace(s[v]))
  {
    SkippedIsWhite(s, i);
    if i < v {
      assert s[i..v][v - i - 1] == s[v - 1];
    }
  }

  lemma HeaderFound(line: string) returns (h: Spelled)
    requires Find(TrimEnd(line), ':') < |TrimEnd(line)|
    ensures IsHeader(h) && line == LineOf(h)
  {
    TrimEndIs(line);
    var s, after := TrimEnd(line), line[|TrimEnd(line)|..];
    var n := Find(s, ':');
    var v := SkipSpace(s, n + 1);
    NameFound(s);
    ValueFound(s, n + 1, v);
    h := Spelled(s[..n], s[n + 1..v], s[v..], after);
    assert line == s + after;
    FiveParts(s, after, n, v);
  }

  lemma FiveParts(s: string, after: string, n: nat, v: nat)
    requires n < v <= |s| && s[n] == ':'
    ensures s + after == s[..n] + ":" + s[n + 1..v] + s[v..] + after
  {
    assert s[..n] + ":" + s[n + 1..v] + s[v..] == s;
  }

  /** A line of the head that is not blank and no header is an error, and no other line is one for its form. */
  lemma HeaderExactly(c: Client, m: Machine, line: string, tail: string)
    requires m.phase == Headers && OneLine(line) && !Blank(line)
    ensures !(exists h :: IsHeader(h) && line == LineOf(h)) ==>
      Run(c, m, line + "\n" + tail).result == Done(HE_PROTOCOL)
    ensures forall h | IsHeader(h) && line == LineOf(h) ::
      var (m', result) := HeaderLine(c, m, h.name, h.value);
      Run(c, m, line + "\n" + tail) == if result.Done? then Final(m', tail, result) else Run(c, m', tail)
  {
    forall h | IsHeader(h) && line == LineOf(h)
      ensures var (m', result) := HeaderLine(c, m, h.name, h.value);
        Run(c, m, line + "\n" + tail) == if result.Done? then Final(m', tail, result) else Run(c, m', tail)
    {
      HeaderIsRead(c, m, h, tail);
    }
    var s := TrimEnd(line);
    BlankTrimmed(line);
    if Find(s, ':') < |s| {
      var h := HeaderFound(line);
    } else {
      RunAnyLine(c, m, line, tail);
    }
  }

  /** A blank line ends the head: the client may end the message or ask the parser to wait there, and its size is where
      the document begins, or, with chunks, of no account. */
  lemma HeadEnds(c: Client, m: Machine, line: string, tail: string, sinks: seq<Answer>)
    requires m.phase == Headers && OneLine(line) && Blank(line)
    ensures var v := c.headerComplete(m.chunked, m.dataSize);
      var m', p := m.(phase := if m.chunked then ChunkSize else Data, dataSize := v.dataSize),
                   Parse(c, m, line + "\n" + tail, sinks);
      if v.error != HE_NONE then p == Parsed(m', tail, Done(v.error), sinks, false)
      else if v.block then p == Parsed(m', tail, Block, sinks, false)
      else p == Parse(c, m', tail, sinks)
  {
    var s := line + "\n" + tail;
    BlankTrimmed(line);
    LineEndBefore(line, tail, 0);
    assert s[..|line|] == line && s[|line| + 1..] == tail;
    ParseOneLine(c, m, s, sinks);
  }
}
