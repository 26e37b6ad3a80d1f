/** The line-buffering echo the pool's workers run on a connection. */
module Echo {
  import opened Bytes

  const LINE_MAX := 512

  function Clip(line: seq<byte>): (r: seq<byte>)
    ensures |r| <= LINE_MAX && r <= line
  {
    if |line| <= LINE_MAX then line else line[..LINE_MAX]
  }

  /** What the client gets back for `input`: its complete lines, clipped to the
      buffer and raised; the unterminated rest never comes back. */
  function Reply(input: seq<byte>): (r: seq<byte>)
    ensures |r| <= |input|
  {
    var k := LineEnd(input);
    if k == |input| then [] else UpperAll(Clip(input[..k + 1])) + Reply(input[k + 1..])
  }

  lemma ReplyLine(line: seq<byte>, rest: seq<byte>)
    requires LF !in line
    ensures Reply(line + [LF] + rest) == UpperAll(Clip(line + [LF])) + Reply(rest)
  {
    var s := line + [LF] + rest;
    assert s[..|line|] == line && s[..|line| + 1] == line + [LF] && s[|line| + 1..] == rest;
    LineEndIs(s, |line|);
  }

  lemma ReplyTail(s: seq<byte>)
    requires LF !in s
    ensures Reply(s) == []
  {
    assert s[..|s|] == s;
    LineEndIs(s, |s|);
  }

  lemma ClipGrows(line: seq<byte>, ch: byte)
    ensures Clip(line + [ch]) == if |Clip(line)| < LINE_MAX then Clip(line) + [ch] else Clip(line)
  {
  }

  lemma NextByte(line: seq<byte>, input: seq<byte>, i: nat)
    requires i < |input|
    ensures line + input[i..] == line + [input[i]] + input[i + 1..]
  {
  }

  /** Keeps a byte of the line, raised, if there is room for it. */
  method Keep(buf: array<byte>, ind: nat, ch: byte, ghost line: seq<byte>) returns (ind': nat)
    requires buf.Length == LINE_MAX
    requires ind == |Clip(line)| && buf[..ind] == UpperAll(Clip(line))
    modifies buf
    ensures ind' == |Clip(line + [ch])| && buf[..ind'] == UpperAll(Clip(line + [ch]))
  {
    hide UpperAll, Clip;
    ind' := ind;
    ClipGrows(line, ch);
    if ind < LINE_MAX {
      UpperSnoc(Clip(line), ch);
      buf[ind] := Upper(ch);
      ind' := ind + 1;
      assert buf[..ind'] == buf[..ind] + [Upper(ch)];
    }
  }

  /** What was sent, with the line and the input that are left, does not change when
      the line is sent and started anew. */
  lemma LineSent(sent: seq<byte>, line: seq<byte>, rest: seq<byte>)
    requires LF !in line
    ensures sent + Reply(line + [LF] + rest) == sent + UpperAll(Clip(line + [LF])) + Reply([] + rest)
  {
    hide Reply, UpperAll, Clip;
    ReplyLine(line, rest);
    assert [] + rest == rest;
    assert sent + (UpperAll(Clip(line + [LF])) + Reply(rest)) == sent + UpperAll(Clip(line + [LF])) + Reply(rest);
  }

  /** `do_echo` on a connection that delivers `input` and is then closed. */
  method DoEcho(input: seq<byte>) returns (sent: seq<byte>)
    ensures sent == Reply(input)
    ensures forall c :: c in sent ==> !(97 <= c <= 122)
    ensures LinesFit(input) ==> Echoes(sent, input)
  {
    hide Reply, LineEnd, UpperAll, Clip, LinesFit, Echoes;
    var buf := new byte[LINE_MAX];
    var ind, i := 0, 0;
    ghost var line: seq<byte> := [];
    sent := [];
    assert line + input[0..] == input && buf[..0] == UpperAll([]);
    while i < |input|
      invariant 0 <= i <= |input| && LF !in line
      invariant ind == |Clip(line)| && buf[..ind] == UpperAll(Clip(line))
      invariant sent + Reply(line + input[i..]) == Reply(input)
    {
      var ch := input[i];
      NextByte(line, input, i);
      ind := Keep(buf, ind, ch, line);
      i := i + 1;
      if ch == LF {
        LineSent(sent, line, input[i..]);
        sent := sent + buf[..ind];
        ind := 0;
        line := [];
      } else {
        line := line + [ch];
      }
    }
    assert line + input[i..] == line;
    ReplyTail(line);
    assert sent + [] == sent;
    ReplyMeans(input);
  }

  /** `sent` is the beginning of `input` up to its last newline, raised. */
  ghost predicate Echoes(sent: seq<byte>, input: seq<byte>) {
    && |sent| <= |input| && Raised(sent, input[..|sent|])
    && (sent == [] || input[|sent| - 1] == LF) && LF !in input[|sent|..]
  }

  /** Whatever the lines are, no lower-case letter is sent. */
  lemma {:induction false} EchoRaised(input: seq<byte>)
    ensures forall c :: c in Reply(input) ==> !(97 <= c <= 122)
    decreases |input|
  {
    hide UpperAll;
    var k := LineEnd(input);
    if k < |input| {
      UpperRaises(Clip(input[..k + 1]));
      EchoRaised(input[k + 1..]);
    }
  }

  /** When every line fits, all of the input up to its last newline comes back. */
  lemma {:induction false} EchoFits(input: seq<byte>)
    requires LinesFit(input)
    ensures Echoes(Reply(input), input)
    decreases |input|
  {
    hide Reply, LineEnd, UpperAll, LinesFit, Raised, Echoes, Clip;
    var line, rest := Split(input);
    if LF in input {
      LinesFitSplit(line, rest);
      ReplyLine(line, rest);
      WholeLineRaised(line + [LF]);
      EchoFits(rest);
      EchoesOn(UpperAll(Clip(line + [LF])), line + [LF], Reply(rest), rest);
    } else {
      ReplyTail(input);
      NothingEchoed(input);
    }
  }

  lemma WholeLineRaised(line: seq<byte>)
    requires |line| <= LINE_MAX
    ensures Raised(UpperAll(Clip(line)), line)
  {
    UpperRaises(line);
  }

  lemma NothingEchoed(input: seq<byte>)
    requires LF !in input
    ensures Echoes([], input)
  {
    assert input[0..] == input;
  }

  lemma ReplyMeans(input: seq<byte>)
    ensures forall c :: c in Reply(input) ==> !(97 <= c <= 122)
    ensures LinesFit(input) ==> Echoes(Reply(input), input)
  {
    EchoRaised(input);
    if LinesFit(input) {
      EchoFits(input);
    }
  }

  lemma EchoesOn(up: seq<byte>, line: seq<byte>, sent: seq<byte>, rest: seq<byte>)
    requires Raised(up, line) && Echoes(sent, rest) && line != [] && line[|line| - 1] == LF
    ensures Echoes(up + sent, line + rest)
  {
    var all := line + rest;
    assert all[..|up + sent|] == line + rest[..|sent|];
    assert all[|up + sent|..] == rest[|sent|..];
  }

  /** Either no newline is in sight, or `s` is one line and the rest. */
  lemma Split(s: seq<byte>) returns (line: seq<byte>, rest: seq<byte>)
    ensures LF !in line
    ensures LF in s ==> s == line + [LF] + rest
    ensures LF !in s ==> line == s
  {
    var k := LineEnd(s);
    line, rest := s[..k], if k < |s| then s[k + 1..] else [];
  }

  /** Whole lines are echoed independently of what comes after them. */
  lemma {:induction false} ReplyConcat(a: seq<byte>, b: seq<byte>)
    requires a != [] ==> a[|a| - 1] == LF
    ensures Reply(a + b) == Reply(a) + Reply(b)
    decreases |a|
  {
    hide Reply, LineEnd, UpperAll, Clip;
    if a == [] {
      assert a + b == b;
      ReplyTail(a);
    } else {
      var line, rest := Split(a);
      assert a + b == line + [LF] + (rest + b);
      ReplyLine(line, rest);
      ReplyLine(line, rest + b);
      ReplyConcat(rest, b);
    }
  }

  /** Every complete line, with its newline, fits the buffer. */
  predicate LinesFit(s: seq<byte>) {
    var k := LineEnd(s);
    k < |s| ==> k < LINE_MAX && LinesFit(s[k + 1..])
  }

  lemma LinesFitSplit(line: seq<byte>, rest: seq<byte>)
    requires LF !in line
    ensures LinesFit(line + [LF] + rest) == (|line| < LINE_MAX && LinesFit(rest))
  {
    var s := line + [LF] + rest;
    assert s[..|line|] == line && s[|line| + 1..] == rest;
    LineEndIs(s, |line|);
  }

  lemma RaisedLine(line: seq<byte>)
    requires LF !in line
    ensures LF !in UpperAll(line)
  {
    forall i | 0 <= i < |line|
      ensures UpperAll(line)[i] != LF
    {
      assert line[i] in line;
    }
  }

  /** Feeding the reply back reproduces it exactly when no line was clipped. */
  lemma {:induction false} EchoStable(input: seq<byte>)
    ensures Reply(Reply(input)) == Reply(input) <==> LinesFit(input)
    decreases |input|
  {
    hide Reply, LineEnd, UpperAll, LinesFit;
    var line, rest := Split(input);
    if LF in input {
      var up, after := UpperAll(line), Reply(rest);
      RaisedLine(line);
      UpperSnoc(line, LF);
      ReplyLine(line, rest);
      LinesFitSplit(line, rest);
      if |line| < LINE_MAX {
        assert Reply(input) == up + [LF] + after;
        ReplyLine(up, after);
        UpperSnoc(up, LF);
        UpperIdempotent(line);
        EchoStable(rest);
        AppendInjective(up + [LF], Reply(after), after);
      } else {
        var back := UpperAll(Clip(line));
        RaisedLine(Clip(line));
        assert Clip(line + [LF]) == Clip(line);
        ClippedShrinks(back, after);
      }
    } else {
      ReplyTail(input);
      ReplyTail([]);
      LinesFitTail(input);
    }
  }

  /** One line that does not fit: its echo has lost the newline, so feeding that back
      gives nothing at all. */
  lemma LongLineLost(line: seq<byte>)
    requires LF !in line && |line| >= LINE_MAX
    ensures Reply(line + [LF]) == UpperAll(line[..LINE_MAX])
    ensures Reply(Reply(line + [LF])) == []
  {
    hide Reply, UpperAll;
    ReplyLine(line, []);
    ReplyTail([]);
    assert line + [LF] + [] == line + [LF];
    assert Clip(line + [LF]) == line[..LINE_MAX];
    RaisedLine(line[..LINE_MAX]);
    ReplyTail(UpperAll(line[..LINE_MAX]));
  }

  lemma LinesFitTail(s: seq<byte>)
    requires LF !in s
    ensures LinesFit(s)
  {
    assert s[..|s|] == s;
    LineEndIs(s, |s|);
  }

  lemma AppendInjective(a: seq<byte>, b: seq<byte>, c: seq<byte>)
    ensures a + b == a + c <==> b == c
  {
    assert (a + b)[|a|..] == b && (a + c)[|a|..] == c;
  }

  /** A full buffer without newline swallows the next line when it comes back. */
  lemma ClippedShrinks(back: seq<byte>, after: seq<byte>)
    requires |back| == LINE_MAX && LF !in back
    ensures |Reply(back + after)| < |back + after|
  {
    hide Reply, LineEnd, UpperAll;
    if LF in after {
      var line, rest := Split(after);
      assert back + after == (back + line) + [LF] + rest;
      ReplyLine(back + line, rest);
    } else {
      ReplyTail(back + after);
    }
  }
}
