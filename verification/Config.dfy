/** The configuration lookup shared by client and server: `get_value`. */
module Config {
  import opened Bytes

  const EQUALS: byte := 61
  const ANSWER_MAX := 49

  datatype Option<T> = None | Some(value: T)

  /** Where `key` first occurs in `line`, if it does. */
  function Find(line: seq<byte>, key: seq<byte>): (p: Option<nat>)
    ensures p.Some? ==> p.value + |key| <= |line| && line[p.value..p.value + |key|] == key
  {
    if key <= line then Some(0)
    else if line == [] then None
    else
      match Find(line[1..], key)
      case None => None
      case Some(p) => SliceOfTail(line, 1, p, p + |key|); Some(p + 1)
  }

  lemma {:induction false} FindFirst(line: seq<byte>, key: seq<byte>, q: nat)
    requires q <= |line| && key <= line[q..]
    ensures Find(line, key).Some? && Find(line, key).value <= q
  {
    if q == 0 {
      assert line[0..] == line;
    } else if !(key <= line) {
      assert line[1..][q - 1..] == line[q..];
      FindFirst(line[1..], key, q - 1);
    }
  }

  /** `strstr(line, key)`: it looks no further than the first NUL. */
  function Strstr(line: seq<byte>, key: seq<byte>): (p: Option<nat>)
    ensures p.Some? ==> p.value + |key| <= |line| && line[p.value..p.value + |key|] == key
  {
    Find(CString(line), key)
  }

  /** The line the lookup stops at: it has the key anywhere, and an equals sign
      at the key's length from the line's start. */
  predicate Captures(line: seq<byte>, key: seq<byte>) {
    Strstr(line, key).Some? && |key| < |line| && line[|key|] == EQUALS
  }

  /** The copy stays inside the line and its terminator: a character follows the key,
      and the line is long enough for the length subtracted. */
  predicate Readable(line: seq<byte>, key: seq<byte>)
    requires Captures(line, key)
  {
    Strstr(line, key).value + |key| < |line| && |key| + 2 <= |line|
  }

  /** What is copied out of such a line: as many bytes as would be the value of a line
      that starts with the key and ends in a newline, from behind the place found, but
      no further than a NUL. */
  function ValueIn(line: seq<byte>, key: seq<byte>): seq<byte>
    requires Captures(line, key) && Readable(line, key)
  {
    var src := CString(line[Strstr(line, key).value + |key| + 1..]);
    var n := |line| - |key| - 2;
    if n < |src| then src[..n] else src
  }

  /** The first capturing line, if there is one, can be copied from. */
  predicate Answers(lines: seq<seq<byte>>, key: seq<byte>) {
    var i := FirstCapture(lines, key);
    i < |lines| ==> Readable(lines[i], key)
  }

  predicate Terminated(line: seq<byte>) {
    line != [] && line[|line| - 1] == LF && LF !in line[..|line| - 1]
  }

  /** The lines `getline` returns for a text that ends in a newline. */
  function Lines(text: seq<byte>): (r: seq<seq<byte>>)
    ensures text == [] || text[|text| - 1] == LF ==> forall l :: l in r ==> Terminated(l)
  {
    if text == [] then []
    else
      var k := LineEnd(text);
      if k == |text| then
        assert text[|text| - 1] in text[..k];
        [text]
      else
        assert text[..k + 1][..k] == text[..k];
        [text[..k + 1]] + Lines(text[k + 1..])
  }

  /** The first line that captures the key. */
  function FirstCapture(lines: seq<seq<byte>>, key: seq<byte>): (i: nat)
    ensures i <= |lines| && (i < |lines| ==> Captures(lines[i], key))
    ensures forall j :: 0 <= j < i ==> !Captures(lines[j], key)
  {
    if lines == [] || Captures(lines[0], key) then 0 else 1 + FirstCapture(lines[1..], key)
  }

  /** The answer, when the buffer still holds `stale` from an earlier lookup: a
      last line with the key in the wrong place makes the caller see that. */
  function Lookup(lines: seq<seq<byte>>, key: seq<byte>, stale: seq<byte>): Option<seq<byte>>
    requires Answers(lines, key)
  {
    var i := FirstCapture(lines, key);
    if i < |lines| then Some(ValueIn(lines[i], key))
    else if lines != [] && Strstr(lines[|lines| - 1], key).Some? then Some(stale)
    else None
  }

  class Lookups {
    /** `conf_ans` as a C string. */
    var confAns: seq<byte>

    constructor ()
      ensures confAns == []
    {
      confAns := [];
    }

    method GetValue(text: seq<byte>, key: seq<byte>) returns (r: Option<seq<byte>>)
      requires Answers(Lines(text), key)
      requires var lines := Lines(text);
               var f := FirstCapture(lines, key);
               f < |lines| ==> |lines[f]| - |key| - 2 <= ANSWER_MAX
      modifies this
      ensures r == Lookup(Lines(text), key, old(confAns))
      ensures confAns == if r.Some? then r.value else old(confAns)
    {
      hide Lines, Find, ValueIn, FirstCapture;
      var lines := Lines(text);
      var i := 0;
      var sub: Option<nat> := None;
      while i < |lines|
        invariant 0 <= i <= |lines| && confAns == old(confAns)
        invariant forall j :: 0 <= j < i ==> !Captures(lines[j], key)
        invariant sub == if i == 0 then None else Strstr(lines[i - 1], key)
      {
        var line := lines[i];
        sub := Strstr(line, key);
        if sub.Some? && |key| < |line| && line[|key|] == EQUALS {
          FirstIs(lines, key, i);
          confAns := ValueIn(line, key);
          break;
        }
        i := i + 1;
      }
      if i == |lines| {
        FirstIs(lines, key, i);
      }
      if sub == None {
        return None;
      }
      return Some(confAns);
    }
  }

  /** `key` stands at `q` in the line, before any NUL. */
  predicate StandsAt(line: seq<byte>, key: seq<byte>, q: nat) {
    q + |key| <= |line| && line[q..q + |key|] == key && NUL !in line[..q + |key|]
  }

  /** The search finds the first place where the key stands before any NUL, if there
      is one. */
  lemma StrstrFirst(line: seq<byte>, key: seq<byte>)
    ensures Strstr(line, key).Some? ==> StandsAt(line, key, Strstr(line, key).value)
    ensures forall q: nat :: StandsAt(line, key, q) ==> Strstr(line, key).Some? && Strstr(line, key).value <= q
  {
    var s, p := CString(line), Strstr(line, key);
    if p.Some? {
      assert line[..p.value + |key|] == s[..p.value + |key|];
    }
    forall q: nat | StandsAt(line, key, q)
      ensures p.Some? && p.value <= q
    {
      CStringReaches(line, q + |key|);
      assert s[q..][..|key|] == line[q..q + |key|] == key;
      FindFirst(s, key, q);
    }
  }

  /** What comes out begins behind the key and one more character, and goes on to the
      first NUL, the end of the line, or the length the source subtracted. */
  lemma ValueInMeans(line: seq<byte>, key: seq<byte>)
    requires Captures(line, key) && Readable(line, key)
    ensures CopyOf(ValueIn(line, key), line, Strstr(line, key).value + |key| + 1, |line| - |key| - 2)
  {
    hide Find, CString, CopyOf;
    var at := Strstr(line, key).value + |key| + 1;
    CopyStops(line, at, |line| - |key| - 2);
  }

  /** What `strncpy` makes of `n` bytes from position `at`, as a C string. */
  predicate CopyOf(v: seq<byte>, line: seq<byte>, at: nat, n: nat) {
    && at + |v| <= |line| && v == line[at..at + |v|] && NUL !in v && |v| <= n
    && (|v| == n || at + |v| == |line| || line[at + |v|] == NUL)
  }

  lemma CopyStops(line: seq<byte>, at: nat, n: nat)
    requires at <= |line|
    ensures var src := CString(line[at..]);
            CopyOf(if n < |src| then src[..n] else src, line, at, n)
  {
    var src := CString(line[at..]);
    assert at + |src| < |line| ==> line[at..][|src|] == line[at + |src|];
  }

  lemma FirstIs(lines: seq<seq<byte>>, key: seq<byte>, i: nat)
    requires i <= |lines| && (i < |lines| ==> Captures(lines[i], key))
    requires forall j :: 0 <= j < i ==> !Captures(lines[j], key)
    ensures FirstCapture(lines, key) == i
  {
    var f := FirstCapture(lines, key);
    assert f < |lines| ==> Captures(lines[f], key);
  }

  /** In a line that ends in a newline, a key without one is always followed by a
      character, so such files can be looked up whatever they contain. */
  lemma TerminatedReadable(line: seq<byte>, key: seq<byte>)
    requires Terminated(line) && LF !in key && Captures(line, key)
    ensures Readable(line, key)
  {
    hide Find;
    var p := Strstr(line, key).value;
    StrstrFirst(line, key);
    assert key == [] ==> StandsAt(line, key, 0);
    assert key != [] ==> line[p..p + |key|][|key| - 1] == line[p + |key| - 1] && key[|key| - 1] in key;
  }

  lemma TerminatedAnswers(lines: seq<seq<byte>>, key: seq<byte>)
    requires LF !in key && forall l :: l in lines ==> Terminated(l)
    ensures Answers(lines, key)
  {
    var f := FirstCapture(lines, key);
    if f < |lines| {
      assert lines[f] in lines;
      TerminatedReadable(lines[f], key);
    }
  }

  // ---------------------------------------------------------------- rendering and looking up

  datatype Entry = Entry(key: seq<byte>, value: seq<byte>)

  /** A key and a value that fit on one line and in the answer buffer. */
  predicate Wellformed(e: Entry) {
    LF !in e.key && NUL !in e.key && LF !in e.value && NUL !in e.value && |e.value| <= ANSWER_MAX
  }

  function Line(e: Entry): seq<byte> {
    e.key + [EQUALS] + e.value + [LF]
  }

  function RenderLines(entries: seq<Entry>): (r: seq<seq<byte>>)
    ensures |r| == |entries|
    ensures forall i :: 0 <= i < |r| ==> r[i] == Line(entries[i])
  {
    if entries == [] then [] else [Line(entries[0])] + RenderLines(entries[1..])
  }

  function Render(entries: seq<Entry>): seq<byte> {
    Concat(RenderLines(entries))
  }

  lemma LineTerminated(e: Entry)
    requires Wellformed(e)
    ensures Terminated(Line(e))
  {
    var l := Line(e);
    assert l[..|l| - 1] == e.key + [EQUALS] + e.value;
  }

  lemma LinesStep(line: seq<byte>, rest: seq<byte>)
    requires Terminated(line)
    ensures Lines(line + rest) == [line] + Lines(rest)
  {
    var text := line + rest;
    assert text[..|line| - 1] == line[..|line| - 1];
    LineEndIs(text, |line| - 1);
    assert text[..|line|] == line && text[|line|..] == rest;
  }

  /** The file splits back into the rendered lines. */
  lemma {:induction false} RenderSplit(entries: seq<Entry>)
    requires forall e :: e in entries ==> Wellformed(e)
    ensures Lines(Render(entries)) == RenderLines(entries)
    ensures Render(entries) == [] || Render(entries)[|Render(entries)| - 1] == LF
    ensures forall l :: l in RenderLines(entries) ==> Terminated(l)
  {
    hide Lines, Line, Terminated, Wellformed;
    if entries != [] {
      RenderSplit(entries[1..]);
      LineTerminated(entries[0]);
      assert RenderLines(entries)[1..] == RenderLines(entries[1..]);
      assert Render(entries) == Line(entries[0]) + Render(entries[1..]);
      assert RenderLines(entries) == [Line(entries[0])] + RenderLines(entries[1..]);
      hide Render, RenderLines;
      LinesStep(Line(entries[0]), Render(entries[1..]));
      EndsInNewline(Line(entries[0]), Render(entries[1..]));
    } else {
      NoLines();
    }
  }

  lemma NoLines()
    ensures Lines([]) == []
  {
  }

  lemma EndsInNewline(line: seq<byte>, rest: seq<byte>)
    requires Terminated(line) && (rest == [] || rest[|rest| - 1] == LF)
    ensures (line + rest)[|line + rest| - 1] == LF
  {
  }

  lemma OwnLine(e: Entry)
    requires Wellformed(e)
    ensures Captures(Line(e), e.key) && Readable(Line(e), e.key) && ValueIn(Line(e), e.key) == e.value
  {
    assert e.key <= Line(e);
    WholeCString(Line(e));
    assert Line(e)[|e.key| + 1..] == e.value + [LF];
    WholeCString(e.value + [LF]);
  }

  ghost predicate NoneBefore(lines: seq<seq<byte>>, key: seq<byte>, i: nat)
    requires i <= |lines|
  {
    forall j :: 0 <= j < i ==> !Captures(lines[j], key)
  }

  lemma LookupFirst(lines: seq<seq<byte>>, key: seq<byte>, i: nat, stale: seq<byte>)
    requires Answers(lines, key) && i < |lines| && Captures(lines[i], key)
    ensures var f := FirstCapture(lines, key);
            && f <= i && Lookup(lines, key, stale) == Some(ValueIn(lines[f], key))
            && (f == i <==> NoneBefore(lines, key, i))
  {
    if NoneBefore(lines, key, i) {
      FirstIs(lines, key, i);
    }
  }

  /** A stored value comes back when no earlier line captures its key; if one
      does, the caller gets what that line has instead. */
  lemma StoredComesBack(entries: seq<Entry>, i: nat, stale: seq<byte>)
    requires i < |entries| && forall e :: e in entries ==> Wellformed(e)
    ensures Lines(Render(entries)) == RenderLines(entries)
    ensures Answers(Lines(Render(entries)), entries[i].key)
    ensures var key, lines := entries[i].key, Lines(Render(entries));
            var f := FirstCapture(lines, key);
            && f <= i && Lookup(lines, key, stale) == Some(ValueIn(lines[f], key))
            && (f == i <==> NoneBefore(lines, key, i))
            && (f == i ==> Lookup(lines, key, stale) == Some(entries[i].value))
  {
    assert entries[i] in entries && LF !in entries[i].key;
    hide Lines, Captures, Line, ValueIn, FirstCapture, Lookup, Terminated, Strstr, Readable, Answers;
    hide Wellformed, Render, RenderLines, NoneBefore;
    RenderSplit(entries);
    TerminatedAnswers(RenderLines(entries), entries[i].key);
    OwnLine(entries[i]);
    LookupFirst(RenderLines(entries), entries[i].key, i, stale);
  }

  /** NULL comes back exactly when no line captures the key and the last line does
      not contain it anywhere. */
  lemma AbsentIsNull(entries: seq<Entry>, key: seq<byte>, stale: seq<byte>)
    requires LF !in key && forall e :: e in entries ==> Wellformed(e)
    ensures Answers(Lines(Render(entries)), key)
    ensures Lookup(Lines(Render(entries)), key, stale) == None
       <==> (forall e :: e in entries ==> !Captures(Line(e), key))
            && (entries == [] || Strstr(Line(entries[|entries| - 1]), key) == None)
  {
    hide Lines, Captures, Line, ValueIn, Strstr, FirstCapture, Answers;
    RenderSplit(entries);
    var lines := RenderLines(entries);
    TerminatedAnswers(lines, key);
    var first := FirstCapture(lines, key);
    if first < |lines| {
      assert entries[first] in entries && Captures(Line(entries[first]), key);
    } else {
      forall e | e in entries
        ensures !Captures(Line(e), key)
      {
        var i :| 0 <= i < |entries| && entries[i] == e;
        assert !Captures(lines[i], key);
      }
    }
  }

  /** With keys that occur nowhere but in their own lines, every present key gives
      its value and every absent one NULL. */
  lemma CleanRoundTrip(entries: seq<Entry>, key: seq<byte>, stale: seq<byte>)
    requires LF !in key && forall e :: e in entries ==> Wellformed(e)
    requires forall e :: e in entries && e.key != key ==> Strstr(Line(e), key) == None
    requires forall i, j :: 0 <= i < j < |entries| ==> entries[i].key != entries[j].key
    ensures Answers(Lines(Render(entries)), key)
    ensures forall e :: e in entries && e.key == key ==> Lookup(Lines(Render(entries)), key, stale) == Some(e.value)
    ensures (forall e :: e in entries ==> e.key != key) ==> Lookup(Lines(Render(entries)), key, stale) == None
  {
    hide Lines, Strstr, Line, Lookup, FirstCapture, Wellformed, ValueIn, Answers;
    AbsentIsNull(entries, key, stale);
    forall e | e in entries && e.key == key
      ensures Lookup(Lines(Render(entries)), key, stale) == Some(e.value)
    {
      var i :| 0 <= i < |entries| && entries[i] == e;
      StoredComesBack(entries, i, stale);
      forall j | 0 <= j < i
        ensures !Captures(Line(entries[j]), key)
      {
        assert entries[j] in entries;
      }
    }
    if entries != [] {
      assert entries[|entries| - 1] in entries;
    }
  }

  // ---------------------------------------------------------------- where the answer is not the value stored

  /** In the file "AB=IP", "IP=7" the first line captures the key "IP", by the equals
      sign of its own key, and the answer is empty. */
  lemma ForeignLineCaptures(stale: seq<byte>)
    ensures var ip: seq<byte> := [73, 80];
            var lines := Lines(Render([Entry([65, 66], ip), Entry(ip, [55])]));
            Answers(lines, ip) && FirstCapture(lines, ip) == 0 && Lookup(lines, ip, stale) == Some([])
  {
    hide Lines, Wellformed, FirstCapture, Captures, Readable, ValueIn;
    var ip: seq<byte>, entries := [73, 80], [Entry([65, 66], [73, 80]), Entry([73, 80], [55])];
    var line: seq<byte> := [65, 66, 61, 73, 80, LF];
    WellformedShort(entries);
    RenderSplit(entries);
    assert Line(entries[0]) == line;
    ForeignLine(line, ip);
    FirstIs(RenderLines(entries), ip, 0);
  }

  lemma ForeignLine(line: seq<byte>, ip: seq<byte>)
    requires line == [65, 66, 61, 73, 80, LF] && ip == [73, 80]
    ensures Captures(line, ip) && Readable(line, ip) && ValueIn(line, ip) == []
  {
    hide Find;
    WholeCString(line);
    FindIs(line, ip, 3);
    assert line[6..] == [];
  }

  lemma WellformedShort(entries: seq<Entry>)
    requires forall e :: e in entries ==> |e.key| <= 3 && |e.value| <= 3 && LF !in e.key && LF !in e.value
    requires forall e :: e in entries ==> NUL !in e.key && NUL !in e.value
    ensures forall e :: e in entries ==> Wellformed(e)
  {
  }

  lemma {:induction false} FindIs(line: seq<byte>, key: seq<byte>, p: nat)
    requires p + |key| <= |line| && line[p..p + |key|] == key && key != [] && key[0] !in line[..p]
    ensures Find(line, key) == Some(p)
  {
    if p == 0 {
      assert line[..|key|] == line[0..0 + |key|] == key;
    } else {
      assert line[0] in line[..p] && line[1..][..p - 1] == line[..p][1..];
      SliceOfTail(line, 1, p - 1, p - 1 + |key|);
      FindIs(line[1..], key, p - 1);
    }
  }

  /** In the file "XIP=7" the key "IP" is not stored, and its lookup gives whatever the
      lookup before it gave. */
  lemma StaleAnswer(stale: seq<byte>)
    ensures var ip: seq<byte>, entries := [73, 80], [Entry([88, 73, 80], [55])];
            var lines := Lines(Render(entries));
            Answers(lines, ip) && (forall e :: e in entries ==> e.key != ip) && Lookup(lines, ip, stale) == Some(stale)
  {
    hide Lines, Wellformed, FirstCapture, Captures, Strstr;
    var ip: seq<byte>, entries := [73, 80], [Entry([88, 73, 80], [55])];
    var line: seq<byte> := [88, 73, 80, 61, 55, LF];
    WellformedShort(entries);
    RenderSplit(entries);
    assert Line(entries[0]) == line;
    StaleLine(line, ip);
    FirstIs(RenderLines(entries), ip, 1);
  }

  lemma StaleLine(line: seq<byte>, ip: seq<byte>)
    requires line == [88, 73, 80, 61, 55, LF] && ip == [73, 80]
    ensures !Captures(line, ip) && Strstr(line, ip) == Some(1)
  {
    hide Find;
    WholeCString(line);
    FindIs(line, ip, 1);
  }

  /** When the last line is stored without its newline, its value comes back without
      its last byte. An empty value then makes the source's length wrap around. */
  lemma UnterminatedLosesLast(entries: seq<Entry>, e: Entry, stale: seq<byte>)
    requires Wellformed(e) && forall d :: d in entries ==> Wellformed(d) && !Captures(Line(d), e.key)
    ensures var lines := Lines(Render(entries) + e.key + [EQUALS] + e.value);
            && (Answers(lines, e.key) <==> e.value != [])
            && (e.value != [] ==> Lookup(lines, e.key, stale) == Some(e.value[..|e.value| - 1]))
  {
    hide Lines, Line, Terminated, Lookup, FirstCapture, Captures, Readable, ValueIn;
    var key, last := e.key, e.key + [EQUALS] + e.value;
    var lines := RenderLines(entries) + [last];
    assert Render(entries) + e.key + [EQUALS] + e.value == Render(entries) + last;
    SplitBeforeLast(entries, last);
    OwnLastLine(e);
    forall j | 0 <= j < |entries|
      ensures !Captures(lines[j], key)
    {
      assert entries[j] in entries;
    }
    FirstIs(lines, key, |entries|);
    if e.value != [] {
      LookupFirst(lines, key, |entries|, stale);
    }
  }

  lemma OwnLastLine(e: Entry)
    requires Wellformed(e)
    ensures var last := e.key + [EQUALS] + e.value;
            && Captures(last, e.key) && (Readable(last, e.key) <==> e.value != [])
            && (e.value != [] ==> ValueIn(last, e.key) == e.value[..|e.value| - 1])
  {
    var last := e.key + [EQUALS] + e.value;
    WholeCString(last);
    assert e.key <= last && Strstr(last, e.key) == Some(0);
    assert last[|e.key| + 1..] == e.value;
    WholeCString(e.value);
  }

  lemma {:induction false} SplitBeforeLast(entries: seq<Entry>, last: seq<byte>)
    requires last != [] && LF !in last && forall e :: e in entries ==> Wellformed(e)
    ensures Lines(Render(entries) + last) == RenderLines(entries) + [last]
  {
    hide Lines, Line, Terminated, Wellformed;
    if entries == [] {
      LastLine(last);
      assert Render(entries) + last == last;
    } else {
      LineTerminated(entries[0]);
      SplitBeforeLast(entries[1..], last);
      assert RenderLines(entries)[1..] == RenderLines(entries[1..]);
      Joined(Line(entries[0]), Render(entries[1..]), last);
      LinesStep(Line(entries[0]), Render(entries[1..]) + last);
    }
  }

  lemma LastLine(last: seq<byte>)
    requires last != [] && LF !in last
    ensures Lines(last) == [last]
  {
    LineEndIs(last, |last|);
  }
}
