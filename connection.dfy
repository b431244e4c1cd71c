/**
 * One client session of `handleConnection`: read `\n`-terminated lines from a
 * buffered reader, answer each with the reply `getResult` gives, stop at the
 * end of the stream or at a read error.
 */
module Connection {
  import opened Wrappers
  import opened Text
  import opened Config
  import opened Resolver

  const NL: byte := 10

  /** The lines glued back with a `\n` after each. */
  function Frame(lines: seq<seq<byte>>): seq<byte> {
    if lines == [] then [] else lines[0] + [NL] + Frame(lines[1..])
  }

  /** The `\n`-terminated lines of a byte stream, each without its terminator. */
  function Lines(s: seq<byte>): seq<seq<byte>>
    decreases |s|
  {
    if NL !in s then [] else [s[..IndexOf(s, NL)]] + Lines(s[IndexOf(s, NL) + 1..])
  }

  /** The unterminated fragment after the last `\n` of a byte stream. */
  function Fragment(s: seq<byte>): seq<byte>
    decreases |s|
  {
    if NL !in s then s else Fragment(s[IndexOf(s, NL) + 1..])
  }

  /** The stream is its lines, each followed by `\n`, and then a fragment holding no `\n`. */
  lemma {:induction false} LinesFrameStream(s: seq<byte>)
    ensures s == Frame(Lines(s)) + Fragment(s)
    ensures NL !in Fragment(s)
    decreases |s|
  {
    if NL in s {
      var i := IndexOf(s, NL);
      var head, tail := s[..i], s[i + 1..];
      LinesFrameStream(tail);
      LinesCons(s);
      FrameCons(head, Lines(tail));
      ConcatAssoc(head + [NL], Frame(Lines(tail)), Fragment(tail));
    }
  }

  /** Through its first `\n` a stream is one line, and the rest is read the same way. */
  lemma LinesCons(s: seq<byte>)
    requires NL in s
    ensures var i := IndexOf(s, NL);
      && Lines(s) == [s[..i]] + Lines(s[i + 1..])
      && Fragment(s) == Fragment(s[i + 1..])
      && s == s[..i] + [NL] + s[i + 1..]
  {
    var i := IndexOf(s, NL);
    assert Lines(s) == [s[..i]] + Lines(s[i + 1..]);
    assert Fragment(s) == Fragment(s[i + 1..]);
    SplitAround(s, i);
  }

  lemma FrameCons(l: seq<byte>, lines: seq<seq<byte>>)
    ensures Frame([l] + lines) == l + [NL] + Frame(lines)
  {
    assert ([l] + lines)[1..] == lines;
  }

  /** No line read holds a `\n`. */
  lemma {:induction false} LinesHoldNoNewline(s: seq<byte>)
    ensures forall i :: 0 <= i < |Lines(s)| ==> NL !in Lines(s)[i]
    decreases |s|
  {
    if NL in s {
      var i := IndexOf(s, NL);
      LinesHoldNoNewline(s[i + 1..]);
      var lines := Lines(s);
      forall j | 1 <= j < |lines| ensures NL !in lines[j] {
        assert lines[j] == Lines(s[i + 1..])[j - 1];
      }
    }
  }

  /** Framing lines that hold no `\n`, followed by a fragment without one, reads back the same lines. */
  lemma {:induction false} LinesOfFrame(lines: seq<seq<byte>>, tail: seq<byte>)
    requires forall i :: 0 <= i < |lines| ==> NL !in lines[i]
    requires NL !in tail
    ensures Lines(Frame(lines) + tail) == lines
    decreases |lines|
  {
    if lines != [] {
      var l := lines[0];
      ConcatAssoc(l + [NL], Frame(lines[1..]), tail);
      LinesAfterLine(l, Frame(lines[1..]) + tail);
      LinesOfFrame(lines[1..], tail);
      assert [l] + lines[1..] == lines;
    } else {
      assert Frame(lines) + tail == tail;
    }
  }

  /** A line without `\n` followed by `\n` is read as that line, then the rest is read. */
  lemma LinesAfterLine(l: seq<byte>, rest: seq<byte>)
    requires NL !in l
    ensures Lines(l + [NL] + rest) == [l] + Lines(rest)
  {
    var s := l + [NL] + rest;
    assert s[|l|] == NL && s[..|l|] == l;
    IndexOfUnique(s, NL, |l|);
    assert s[|l| + 1..] == rest;
  }

  /** Why reading stopped: the peer closed the stream, or the read failed. */
  datatype ReadError = EOF | Broken

  /** `bufio.Reader` over the bytes the connection delivers before it ends with `ending`. */
  class Reader {
    const input: seq<byte>
    const ending: ReadError
    var pos: nat

    ghost predicate Valid()
      reads this
    {
      pos <= |input|
    }

    constructor (input: seq<byte>, ending: ReadError)
      ensures Valid() && this.input == input && this.ending == ending && pos == 0
    {
      this.input := input;
      this.ending := ending;
      pos := 0;
    }

    /**
     * `ReadBytes(delim)`: the bytes up to and including the next `delim`; when
     * there is none, the rest of the input together with the error that ended it.
     */
    method ReadBytes(delim: byte) returns (data: seq<byte>, err: Option<ReadError>)
      requires Valid()
      modifies this
      ensures Valid()
      ensures var rest := old(input[pos..]);
        if delim in rest then
          var i := IndexOf(rest, delim);
          data == rest[..i + 1] && err.None? && pos == old(pos) + i + 1
        else
          data == rest && err == Some(ending) && pos == |input|
    {
      var j := pos;
      while j < |input| && input[j] != delim
        invariant pos <= j <= |input|
        invariant delim !in input[pos..j]
      {
        assert input[pos..j + 1] == input[pos..j] + [input[j]];
        j := j + 1;
      }
      if j == |input| {
        assert input[pos..j] == input[pos..];
        data, err := input[pos..], Some(ending);
        pos := |input|;
      } else {
        IndexOfUnique(input[pos..], delim, j - pos);
        assert input[pos..][..j - pos + 1] == input[pos..j + 1];
        data, err := input[pos..j + 1], None;
        pos := j + 1;
      }
    }
  }

  /**
   * The replies written for `lines[k..]`: one per line, in order, until the
   * first line whose resolution panics. `getResult(k, line)` is the outcome of
   * `getResult` on the `k`-th line of the session.
   */
  function Answers(lines: seq<seq<byte>>, getResult: (nat, string) -> Outcome, k: nat): seq<string>
    requires k <= |lines|
    decreases |lines| - k
  {
    if k == |lines| then []
    else
      match getResult(k, BytesToString(lines[k]))
      case Panicked => []
      case Answered(r) => [r] + Answers(lines, getResult, k + 1)
  }

  /**
   * Every reply belongs to its line: the `i`-th reply is the answer to line
   * `k + i`, and no reply is written past a line that panicked.
   */
  lemma {:induction false} AnswersInOrder(lines: seq<seq<byte>>, getResult: (nat, string) -> Outcome, k: nat)
    requires k <= |lines|
    ensures |Answers(lines, getResult, k)| <= |lines| - k
    ensures forall i :: 0 <= i < |Answers(lines, getResult, k)| ==>
      getResult(k + i, BytesToString(lines[k + i])) == Answered(Answers(lines, getResult, k)[i])
    ensures (forall j :: k <= j < |lines| ==> getResult(j, BytesToString(lines[j])).Answered?) ==>
      |Answers(lines, getResult, k)| == |lines| - k
    decreases |lines| - k
  {
    if k < |lines| {
      AnswersInOrder(lines, getResult, k + 1);
      var a := Answers(lines, getResult, k);
      if getResult(k, BytesToString(lines[k])).Answered? {
        forall i | 0 <= i < |a|
          ensures getResult(k + i, BytesToString(lines[k + i])) == Answered(a[i])
        {
          if i > 0 {
            assert a[i] == Answers(lines, getResult, k + 1)[i - 1];
          }
        }
      }
    }
  }

  /**
   * `handleConnection`: read a line, drop its `\n`, resolve it, write the
   * reply, until the reader reports an error (the end of the stream
   * included, which discards an unterminated fragment) or resolution panics.
   * Returns the replies in the order they were written.
   */
  method HandleConnection(stream: seq<byte>, ending: ReadError, getResult: (nat, string) -> Outcome)
    returns (writes: seq<string>)
    ensures writes == Answers(Lines(stream), getResult, 0)
  {
    ghost var lines := Lines(stream);
    var reader := new Reader(stream, ending);
    var k := 0;
    writes := [];
    assert stream[reader.pos..] == stream;
    assert lines[k..] == lines;
    while true
      invariant reader.Valid() && reader.input == stream
      invariant k <= |lines|
      invariant Lines(stream[reader.pos..]) == lines[k..]
      invariant writes + Answers(lines, getResult, k) == Answers(lines, getResult, 0)
      decreases |stream| - reader.pos
    {
      ghost var pos := reader.pos;
      var data, err := reader.ReadBytes(NL);
      if err.Some? {
        NoLineLeft(stream, pos, lines, k);
        AnswersDone(lines, getResult, k, writes);
        return;
      }
      LineRead(stream, pos, reader.pos, data, lines, k);
      var line := BytesToString(data[..|data| - 1]);
      var result := getResult(k, line);
      AnswersStep(lines, getResult, k, writes);
      if result.Panicked? {
        return;
      }
      writes := writes + [result.response];
      k := k + 1;
    }
  }

  /** When no `\n` is left in the stream, every line has been read. */
  lemma NoLineLeft(s: seq<byte>, pos: nat, lines: seq<seq<byte>>, k: nat)
    requires pos <= |s| && k <= |lines| && Lines(s[pos..]) == lines[k..]
    requires NL !in s[pos..]
    ensures k == |lines|
  {
  }

  /** Reading one line off the stream at `pos` consumes the next element of `Lines`. */
  lemma LineRead(s: seq<byte>, pos: nat, next: nat, data: seq<byte>, lines: seq<seq<byte>>, k: nat)
    requires pos <= |s| && k <= |lines| && Lines(s[pos..]) == lines[k..]
    requires NL in s[pos..]
    requires var i := IndexOf(s[pos..], NL); data == s[pos..][..i + 1] && next == pos + i + 1
    ensures next <= |s| && |data| >= 1
    ensures k < |lines| && data[..|data| - 1] == lines[k]
    ensures Lines(s[next..]) == lines[k + 1..]
  {
    var rest := s[pos..];
    var i := IndexOf(rest, NL);
    assert rest[i + 1..] == s[next..];
    assert data[..|data| - 1] == rest[..i];
    assert Lines(rest) == [rest[..i]] + Lines(rest[i + 1..]);
    assert lines[k..][0] == lines[k];
    assert lines[k + 1..] == lines[k..][1..];
  }

  /** Past the last line nothing more is written. */
  lemma AnswersDone(lines: seq<seq<byte>>, getResult: (nat, string) -> Outcome, k: nat, writes: seq<string>)
    requires k == |lines|
    requires writes + Answers(lines, getResult, k) == Answers(lines, getResult, 0)
    ensures writes == Answers(lines, getResult, 0)
  {
    assert writes + [] == writes;
  }

  /** Answering line `k` either ends the session or adds its reply to those written. */
  lemma AnswersStep(lines: seq<seq<byte>>, getResult: (nat, string) -> Outcome, k: nat, writes: seq<string>)
    requires k < |lines|
    requires writes + Answers(lines, getResult, k) == Answers(lines, getResult, 0)
    ensures getResult(k, BytesToString(lines[k])).Panicked? ==> writes == Answers(lines, getResult, 0)
    ensures getResult(k, BytesToString(lines[k])).Answered? ==>
      (writes + [getResult(k, BytesToString(lines[k])).response]) + Answers(lines, getResult, k + 1)
        == Answers(lines, getResult, 0)
  {
    var r := getResult(k, BytesToString(lines[k]));
    if r.Panicked? {
      assert writes + [] == writes;
    } else {
      ConcatAssoc(writes, [r.response], Answers(lines, getResult, k + 1));
    }
  }

  /** The `getResult` of a session whose `k`-th line is resolved with the draws `draws(k)`. */
  ghost function Service(table: Table, defaultTarget: string, net: Net, draws: nat -> Draws): (nat, string) -> Outcome
    requires ValidTable(table, defaultTarget)
    requires forall k :: draws(k).defaultIdx < ByteLen(defaultTarget) && IpDrawsInRange(net, draws(k).ipIdx) &&
                         CountryDrawsInRange(table, draws(k).countryIdx)
  {
    (k: nat, line: string) => ReplyOf(table, defaultTarget, line, net, draws(k))
  }

  /**
   * In a session of a service whose table `argsHandler` built, each reply is
   * `200 relay:[d]` with `d` a target of the table.
   */
  lemma SessionRepliesAreRelays(stream: seq<byte>, table: Table, defaultTarget: string, net: Net, draws: nat -> Draws)
    requires ValidTable(table, defaultTarget)
    requires forall k :: draws(k).defaultIdx < ByteLen(defaultTarget) && IpDrawsInRange(net, draws(k).ipIdx) &&
                         CountryDrawsInRange(table, draws(k).countryIdx)
    ensures var replies := Answers(Lines(stream), Service(table, defaultTarget, net, draws), 0);
      forall i :: 0 <= i < |replies| ==> IsRelayReply(table, replies[i])
  {
    var f := Service(table, defaultTarget, net, draws);
    forall k: nat, line: string | f(k, line).Answered?
      ensures IsRelayReply(table, f(k, line).response)
    {
      ServiceReplyIsRelay(table, defaultTarget, net, draws, k, line);
    }
    AnswersAll(Lines(stream), f, 0, r => IsRelayReply(table, r));
  }

  /** A property every answer of `getResult` has, every reply of the session has. */
  lemma {:induction false} AnswersAll(lines: seq<seq<byte>>, getResult: (nat, string) -> Outcome, k: nat, ok: string -> bool)
    requires k <= |lines|
    requires forall j: nat, line :: getResult(j, line).Answered? ==> ok(getResult(j, line).response)
    ensures forall i :: 0 <= i < |Answers(lines, getResult, k)| ==> ok(Answers(lines, getResult, k)[i])
    decreases |lines| - k
  {
    if k < |lines| && getResult(k, BytesToString(lines[k])).Answered? {
      AnswersAll(lines, getResult, k + 1, ok);
      var a := Answers(lines, getResult, k);
      forall i | 0 <= i < |a| ensures ok(a[i]) {
        if i > 0 {
          assert a[i] == Answers(lines, getResult, k + 1)[i - 1];
        }
      }
    }
  }

  lemma ServiceReplyIsRelay(table: Table, defaultTarget: string, net: Net, draws: nat -> Draws, k: nat, line: string)
    requires ValidTable(table, defaultTarget)
    requires forall k :: draws(k).defaultIdx < ByteLen(defaultTarget) && IpDrawsInRange(net, draws(k).ipIdx) &&
                         CountryDrawsInRange(table, draws(k).countryIdx)
    ensures Service(table, defaultTarget, net, draws)(k, line).Answered? ==>
      IsRelayReply(table, Service(table, defaultTarget, net, draws)(k, line).response)
  {
    ReplyIsRelay(table, defaultTarget, line, net, draws(k));
  }

  /**
   * When every default draw is below the length of the default list, every
   * `\n`-terminated line of the session gets its reply; otherwise the first
   * panicking line ends the session.
   */
  lemma SessionAnswersEveryLine(stream: seq<byte>, table: Table, defaultTarget: string, net: Net, draws: nat -> Draws)
    requires ValidTable(table, defaultTarget)
    requires forall k :: draws(k).defaultIdx < ByteLen(defaultTarget) && IpDrawsInRange(net, draws(k).ipIdx) &&
                         CountryDrawsInRange(table, draws(k).countryIdx)
    requires forall k :: draws(k).defaultIdx < |table[defaultTarget]|
    ensures |Answers(Lines(stream), Service(table, defaultTarget, net, draws), 0)| == |Lines(stream)|
  {
    var f := Service(table, defaultTarget, net, draws);
    var lines := Lines(stream);
    forall j | 0 <= j < |lines| ensures f(j, BytesToString(lines[j])).Answered? {
      ServiceAnswers(table, defaultTarget, net, draws, j, BytesToString(lines[j]));
    }
    AnswersInOrder(lines, f, 0);
  }

  lemma ServiceAnswers(table: Table, defaultTarget: string, net: Net, draws: nat -> Draws, k: nat, line: string)
    requires ValidTable(table, defaultTarget)
    requires forall k :: draws(k).defaultIdx < ByteLen(defaultTarget) && IpDrawsInRange(net, draws(k).ipIdx) &&
                         CountryDrawsInRange(table, draws(k).countryIdx)
    requires draws(k).defaultIdx < |table[defaultTarget]|
    ensures Service(table, defaultTarget, net, draws)(k, line).Answered?
  {
    assert DefaultPick(table, defaultTarget, draws(k).defaultIdx).Some?;
  }

  /** `r` is the reply line `200 relay:[d]` of a target `d` of the table. */
  ghost predicate IsRelayReply(table: Table, r: string) {
    exists c, d :: c in table && d in table[c] && r == GenPostfixResponse(d)
  }

  /** A reply of `getResult` is the reply line of some target in the table. */
  lemma ReplyIsRelay(table: Table, defaultTarget: string, email: string, net: Net, dr: Draws)
    requires ValidTable(table, defaultTarget) && dr.defaultIdx < ByteLen(defaultTarget)
    requires IpDrawsInRange(net, dr.ipIdx) && CountryDrawsInRange(table, dr.countryIdx)
    ensures ReplyOf(table, defaultTarget, email, net, dr).Answered? ==>
      IsRelayReply(table, ReplyOf(table, defaultTarget, email, net, dr).response)
  {
    var pick := DefaultPick(table, defaultTarget, dr.defaultIdx);
    if pick.Some? {
      ResolveFromTable(table, defaultTarget, pick.value, email, net, dr);
    }
  }
}
