/** The spool loop (`enter_spool_mode`): a conversation with a language model
    kept as an ordered transcript of role-tagged messages, optionally seeded
    from the command history. */
module Spool {
  import opened PyStr
  import opened Console
  import opened History

  const UserRole := "user"
  const AssistantRole := "assistant"
  const ExitToken := "/sq"
  const SpoolTag := "spool"

  /** A transcript entry `{"role": ..., "content": ...}`. */
  datatype Message = Message(role: string, content: string)

  /** `get_ollama_conversation(transcript, model)`: an external call that
      returns the updated transcript. Its result is taken as it comes. */
  type Conversation = (seq<Message>, string) -> seq<Message>

  /** Everything one run of the loop does: the final transcript, the
      transcripts passed to the model (in call order), the history records
      written (in order), and whether `spool_context[-1]` raised on an empty
      model answer. */
  datatype Trace = Trace(transcript: seq<Message>, calls: seq<seq<Message>>, history: seq<Record>, crashed: bool)

  function Last(t: seq<Message>): Message
    requires t != []
  {
    t[|t| - 1]
  }

  /** The two entries one history row contributes: its command, then its output. */
  function Turn(row: Row): seq<Message> {
    [Message(UserRole, row.command), Message(AssistantRole, row.output)]
  }

  /** The seeded transcript for history rows given newest-first: the rows
      oldest-first, each as a user entry followed by an assistant entry. */
  function Seeded(rows: seq<Row>): (t: seq<Message>)
    ensures |t| == 2 * |rows|
    ensures forall k :: 0 <= k < |t| ==>
      t[k] == if k % 2 == 0 then Message(UserRole, rows[|rows| - 1 - k / 2].command)
              else Message(AssistantRole, rows[|rows| - 1 - k / 2].output)
  {
    if rows == [] then [] else Seeded(rows[1..]) + Turn(rows[0])
  }

  /** The transcript the loop starts from: `get_all(limit=inheritLast)` is
      consulted only for a positive count. */
  function Initial(getAll: int -> seq<Row>, inheritLast: int): seq<Message> {
    if inheritLast > 0 then Seeded(getAll(inheritLast)) else []
  }

  /** The exit test, applied to the already stripped line. */
  predicate IsExit(line: string) {
    Lower(line) == ExitToken
  }

  /** The contents of the assistant entries of `t`, in transcript order. */
  function Replies(t: seq<Message>): (r: seq<string>)
    ensures |r| <= |t|
  {
    if t == [] then []
    else (if t[0].role == AssistantRole then [t[0].content] else []) + Replies(t[1..])
  }

  /** What the loop makes of the event at position `i`: `None` where it
      stops (end of input, Ctrl-C, or the exit token), otherwise the stripped
      line. */
  function Request(inputs: seq<Event>, i: nat): (r: Option<string>)
    ensures r.Some? <==> i < |inputs| && inputs[i].Line? && !IsExit(Strip(inputs[i].text))
    ensures r.Some? ==> r.value == Strip(inputs[i].text)
  {
    if i >= |inputs| || inputs[i].Interrupt? then None
    else
      var line := Strip(inputs[i].text);
      if IsExit(line) then None else Some(line)
  }

  /** What the loop does with `inputs` from position `i` on, starting from
      transcript `ctx`. */
  function Loop(ctx: seq<Message>, inputs: seq<Event>, i: nat, converse: Conversation, model: string, cwd: string): Trace
    decreases |inputs| - i
  {
    match Request(inputs, i)
    case None => Trace(ctx, [], [], false)
    case Some(line) =>
      var sent := ctx + [Message(UserRole, line)];
      var back := converse(sent, model);
      if back == [] then Trace(back, [sent], [], true)
      else
        var rest := Loop(back, inputs, i + 1, converse, model, cwd);
        Trace(rest.transcript, [sent] + rest.calls,
              [Record(line, [SpoolTag], Last(back).content, cwd)] + rest.history, rest.crashed)
  }

  function Prepend(calls: seq<seq<Message>>, history: seq<Record>, tr: Trace): Trace {
    Trace(tr.transcript, calls + tr.calls, history + tr.history, tr.crashed)
  }
  lemma PrependDone(calls: seq<seq<Message>>, history: seq<Record>, t: seq<Message>, crashed: bool)
    ensures Prepend(calls, history, Trace(t, [], [], crashed)) == Trace(t, calls, history, crashed)
  {
    assert calls + [] == calls;
    assert history + [] == history;
  }

  lemma PrependCrash(calls: seq<seq<Message>>, history: seq<Record>, sent: seq<Message>)
    ensures Prepend(calls, history, Trace([], [sent], [], true)) == Trace([], calls + [sent], history, true)
  {
    assert history + [] == history;
  }

  lemma PrependTwice(c1: seq<seq<Message>>, h1: seq<Record>, c2: seq<seq<Message>>, h2: seq<Record>, tr: Trace)
    ensures Prepend(c1, h1, Prepend(c2, h2, tr)) == Prepend(c1 + c2, h1 + h2, tr)
  {
    assert c1 + (c2 + tr.calls) == (c1 + c2) + tr.calls;
    assert h1 + (h2 + tr.history) == (h1 + h2) + tr.history;
  }
  /** End of input, Ctrl-C and the exit token end the loop on the spot: the
      transcript stays as it is, the model is not called and nothing is
      written to the history. */
  lemma SpoolStops(ctx: seq<Message>, inputs: seq<Event>, i: nat, converse: Conversation, model: string, cwd: string)
    requires i >= |inputs| || inputs[i].Interrupt? || IsExit(Strip(inputs[i].text))
    ensures Loop(ctx, inputs, i, converse, model, cwd) == Trace(ctx, [], [], false)
  {}
  lemma LoopCrashes(ctx: seq<Message>, inputs: seq<Event>, i: nat, converse: Conversation, model: string, cwd: string)
    requires Request(inputs, i).Some?
    requires converse(ctx + [Message(UserRole, Request(inputs, i).value)], model) == []
    ensures Loop(ctx, inputs, i, converse, model, cwd) == Trace([], [ctx + [Message(UserRole, Request(inputs, i).value)]], [], true)
  {}
  lemma LoopContinues(ctx: seq<Message>, inputs: seq<Event>, i: nat, converse: Conversation, model: string, cwd: string)
    requires Request(inputs, i).Some?
    requires converse(ctx + [Message(UserRole, Request(inputs, i).value)], model) != []
    ensures var line := Request(inputs, i).value;
      var sent := ctx + [Message(UserRole, line)];
      var back := converse(sent, model);
      Loop(ctx, inputs, i, converse, model, cwd) == Prepend([sent], [Record(line, [SpoolTag], Last(back).content, cwd)], Loop(back, inputs, i + 1, converse, model, cwd))
  {}

  /** Lines 153-158: seeding the transcript from the last `inheritLast` history rows. */
  method Inherit(getAll: int -> seq<Row>, inheritLast: int) returns (ctx: seq<Message>)
    ensures inheritLast <= 0 ==> ctx == []
    ensures inheritLast > 0 ==> |ctx| == 2 * |getAll(inheritLast)|
    ensures ctx == Initial(getAll, inheritLast)
  {
    ctx := [];
    if inheritLast > 0 {
      var lastCommands := getAll(inheritLast);
      var i := |lastCommands|;
      while i > 0
        invariant 0 <= i <= |lastCommands|
        invariant ctx == Seeded(lastCommands[i..])
      {
        i := i - 1;
        assert lastCommands[i..][1..] == lastCommands[i + 1..];
        ctx := ctx + [Message(UserRole, lastCommands[i].command)];
        ctx := ctx + [Message(AssistantRole, lastCommands[i].output)];
      }
      assert lastCommands[0..] == lastCommands;
    }
  }

  /** The loop stops at `i`: the whole run is what was gathered so far. */
  lemma TraceStops(whole: Trace, calls: seq<seq<Message>>, history: seq<Record>, ctx: seq<Message>,
                      inputs: seq<Event>, i: nat, converse: Conversation, model: string, cwd: string)
    requires whole == Prepend(calls, history, Loop(ctx, inputs, i, converse, model, cwd))
    requires i >= |inputs| || inputs[i].Interrupt? || IsExit(Strip(inputs[i].text))
    ensures whole == Trace(ctx, calls, history, false)
  {
    SpoolStops(ctx, inputs, i, converse, model, cwd);
    PrependDone(calls, history, ctx, false);
  }

  /** The model answers the turn at `i` with an empty transcript. */
  lemma TraceCrashes(whole: Trace, calls: seq<seq<Message>>, history: seq<Record>, ctx: seq<Message>,
                        inputs: seq<Event>, i: nat, converse: Conversation, model: string, cwd: string)
    requires whole == Prepend(calls, history, Loop(ctx, inputs, i, converse, model, cwd))
    requires i < |inputs| && inputs[i].Line? && !IsExit(Strip(inputs[i].text))
    requires converse(ctx + [Message(UserRole, Strip(inputs[i].text))], model) == []
    ensures whole == Trace([], calls + [ctx + [Message(UserRole, Strip(inputs[i].text))]], history, true)
  {
    assert Request(inputs, i) == Some(Strip(inputs[i].text));
    LoopCrashes(ctx, inputs, i, converse, model, cwd);
    PrependCrash(calls, history, ctx + [Message(UserRole, Strip(inputs[i].text))]);
  }

  /** The model answers the turn at `i`: the run goes on from its answer. */
  lemma TraceGoesOn(whole: Trace, calls: seq<seq<Message>>, history: seq<Record>, ctx: seq<Message>,
                       inputs: seq<Event>, i: nat, converse: Conversation, model: string, cwd: string)
    requires whole == Prepend(calls, history, Loop(ctx, inputs, i, converse, model, cwd))
    requires i < |inputs| && inputs[i].Line? && !IsExit(Strip(inputs[i].text))
    requires converse(ctx + [Message(UserRole, Strip(inputs[i].text))], model) != []
    ensures var line := Strip(inputs[i].text);
      var sent := ctx + [Message(UserRole, line)];
      var back := converse(sent, model);
      whole == Prepend(calls + [sent], history + [Record(line, [SpoolTag], Last(back).content, cwd)],
                       Loop(back, inputs, i + 1, converse, model, cwd))
  {
    var line := Strip(inputs[i].text);
    var sent := ctx + [Message(UserRole, line)];
    var back := converse(sent, model);
    assert Request(inputs, i) == Some(line);
    LoopContinues(ctx, inputs, i, converse, model, cwd);
    PrependTwice(calls, history, [sent], [Record(line, [SpoolTag], Last(back).content, cwd)],
                 Loop(back, inputs, i + 1, converse, model, cwd));
  }

  /** Lines 160-179: the `while True` loop, from transcript `ctx`. Returns the
      final transcript, what was sent to the model, what was written to the
      history and whether `spool_context[-1]` raised. */
  method SpoolLoop(ctx: seq<Message>, model: string, converse: Conversation, cwd: string, inputs: seq<Event>)
    returns (spoolContext: seq<Message>, calls: seq<seq<Message>>, history: seq<Record>, crashed: bool)
    ensures Loop(ctx, inputs, 0, converse, model, cwd) == Trace(spoolContext, calls, history, crashed)
  {
    ghost var whole := Loop(ctx, inputs, 0, converse, model, cwd);
    spoolContext := ctx;
    calls, history := [], [];
    crashed := false;
    assert calls + [] == calls && history + [] == history;
    var i := 0;
    while i < |inputs|
      invariant 0 <= i <= |inputs|
      invariant whole == Prepend(calls, history, Loop(spoolContext, inputs, i, converse, model, cwd))
      invariant !crashed
    {
      if inputs[i].Interrupt? {
        TraceStops(whole, calls, history, spoolContext, inputs, i, converse, model, cwd);
        break;
      }
      var userInput := Strip(inputs[i].text);
      if IsExit(userInput) {
        TraceStops(whole, calls, history, spoolContext, inputs, i, converse, model, cwd);
        break;
      }
      ghost var previous, before := calls, spoolContext;
      spoolContext := spoolContext + [Message(UserRole, userInput)];
      calls := calls + [spoolContext];
      spoolContext := converse(spoolContext, model);
      if |spoolContext| == 0 {
        crashed := true;
        TraceCrashes(whole, previous, history, before, inputs, i, converse, model, cwd);
        break;
      }
      TraceGoesOn(whole, previous, history, before, inputs, i, converse, model, cwd);
      history := history + [Record(userInput, [SpoolTag], spoolContext[|spoolContext| - 1].content, cwd)];
      i := i + 1;
    }
    if i == |inputs| {
      TraceStops(whole, calls, history, spoolContext, inputs, i, converse, model, cwd);
    }
  }

  /** `enter_spool_mode`: returns the newline-join of the assistant contents
      of the final transcript, or raises `IndexError` when the model hands
      back an empty transcript; also returns what was sent to the model and
      what was written to the history. */
  method EnterSpoolMode(getAll: int -> seq<Row>, inheritLast: int, model: string,
                        converse: Conversation, cwd: string, inputs: seq<Event>)
    returns (result: Outcome<string>, calls: seq<seq<Message>>, history: seq<Record>)
    ensures var tr := Loop(Initial(getAll, inheritLast), inputs, 0, converse, model, cwd);
      && calls == tr.calls && history == tr.history
      && result == if tr.crashed then Raised(IndexError) else Returned(Join("\n", Replies(tr.transcript)))
  {
    var spoolContext := Inherit(getAll, inheritLast);
    var crashed;
    spoolContext, calls, history, crashed := SpoolLoop(spoolContext, model, converse, cwd, inputs);
    if crashed {
      result := Raised(IndexError);
    } else {
      result := Returned(Join("\n", Replies(spoolContext)));
    }
  }

  /** A stopping line: the exit token in any ASCII case, with any surrounding whitespace. */
  lemma ExitSpellings(pre: string, token: string, post: string)
    requires AllSpace(pre) && AllSpace(post) && Lower(token) == ExitToken
    ensures IsExit(Strip(pre + token + post))
  {
    LowerAt(token, 0);
    LowerAt(token, 2);
    assert LowerChar(token[0]) == '/' && LowerChar(token[2]) == 'q';
    StripPadded(pre, token, post);
  }

  /** The replies of a concatenation are the replies of its parts, in order. */
  lemma {:induction false} RepliesConcat(a: seq<Message>, b: seq<Message>)
    ensures Replies(a + b) == Replies(a) + Replies(b)
  {
    if a == [] {
      assert a + b == b;
    } else {
      var head := if a[0].role == AssistantRole then [a[0].content] else [];
      assert (a + b)[0] == a[0];
      assert (a + b)[1..] == a[1..] + b;
      assert Replies(a + b) == head + Replies(a[1..] + b);
      RepliesConcat(a[1..], b);
      assert head + (Replies(a[1..]) + Replies(b)) == (head + Replies(a[1..])) + Replies(b);
    }
  }

  /** The replies of a seeded transcript are the stored outputs, oldest first. */
  lemma {:induction false} SeededReplies(rows: seq<Row>)
    ensures |Replies(Seeded(rows))| == |rows|
    ensures forall k :: 0 <= k < |rows| ==> Replies(Seeded(rows))[k] == rows[|rows| - 1 - k].output
  {
    if rows != [] {
      SeededReplies(rows[1..]);
      RepliesConcat(Seeded(rows[1..]), Turn(rows[0]));
      assert Replies(Turn(rows[0])) == [rows[0].output];
    }
  }

  function DropLast(t: seq<Message>): seq<Message>
    requires t != []
  {
    t[..|t| - 1]
  }

  /** Call `k` of a run started at `i` sends the previous transcript (`ctx`
      for the first call, the model's answer to call `k - 1` afterwards) plus
      one user entry, and that entry is the stripped line at `i + k`, which
      is not the exit token. */
  ghost predicate CallShape(ctx: seq<Message>, calls: seq<seq<Message>>, inputs: seq<Event>, i: nat,
                            converse: Conversation, model: string, k: nat)
    requires k < |calls|
  {
    && calls[k] != [] && Last(calls[k]).role == UserRole
    && DropLast(calls[k]) == (if k == 0 then ctx else converse(calls[k - 1], model))
    && Request(inputs, i + k) == Some(Last(calls[k]).content)
  }

  /** Record `k` holds the user entry of call `k` and the content of the last
      entry of the model's (non-empty) answer to it. */
  ghost predicate RecordShape(calls: seq<seq<Message>>, history: seq<Record>, converse: Conversation, model: string, cwd: string, k: nat)
    requires k < |calls| && k < |history|
  {
    && calls[k] != [] && converse(calls[k], model) != []
    && history[k] == Record(Last(calls[k]).content, [SpoolTag], Last(converse(calls[k], model)).content, cwd)
  }

  /** How the parts of a trace of a run started at `i` hang together: one
      record per answered call, each call and record shaped as above, a crash
      is an empty answer to the last call, and otherwise the loop stopped at
      the event after the last call and the final transcript is the last
      answer. */
  ghost predicate Consistent(ctx: seq<Message>, tr: Trace, inputs: seq<Event>, i: nat,
                             converse: Conversation, model: string, cwd: string) {
    && |tr.calls| == |tr.history| + (if tr.crashed then 1 else 0)
    && (forall k: nat :: k < |tr.calls| ==> CallShape(ctx, tr.calls, inputs, i, converse, model, k))
    && (!tr.crashed ==> Request(inputs, i + |tr.calls|).None?)
    && (forall k: nat :: k < |tr.history| ==> RecordShape(tr.calls, tr.history, converse, model, cwd, k))
    && (tr.crashed ==> converse(tr.calls[|tr.calls| - 1], model) == [])
    && (!tr.crashed ==> tr.transcript == if tr.calls == [] then ctx else converse(tr.calls[|tr.calls| - 1], model))
  }

  /** One answered turn in front of a consistent trace keeps it consistent. */
  lemma ConsistentCons(ctx: seq<Message>, line: string, rest: Trace, inputs: seq<Event>, i: nat,
                       converse: Conversation, model: string, cwd: string)
    requires Request(inputs, i) == Some(line)
    requires converse(ctx + [Message(UserRole, line)], model) != []
    requires Consistent(converse(ctx + [Message(UserRole, line)], model), rest, inputs, i + 1, converse, model, cwd)
    ensures var sent := ctx + [Message(UserRole, line)];
      Consistent(ctx, Prepend([sent], [Record(line, [SpoolTag], Last(converse(sent, model)).content, cwd)], rest),
                 inputs, i, converse, model, cwd)
  {
    var sent := ctx + [Message(UserRole, line)];
    var back := converse(sent, model);
    assert DropLast(sent) == ctx;
    var record := Record(line, [SpoolTag], Last(back).content, cwd);
    var calls, history := [sent] + rest.calls, [record] + rest.history;
    forall k: nat | k < |calls| ensures CallShape(ctx, calls, inputs, i, converse, model, k) {
      if k > 0 {
        assert CallShape(back, rest.calls, inputs, i + 1, converse, model, k - 1);
        assert i + 1 + (k - 1) == i + k;
        assert calls[k] == rest.calls[k - 1];
        if k > 1 { assert calls[k - 1] == rest.calls[k - 2]; }
      }
    }
    forall k: nat | k < |history| ensures RecordShape(calls, history, converse, model, cwd, k) {
      if k > 0 {
        assert RecordShape(rest.calls, rest.history, converse, model, cwd, k - 1);
        assert history[k] == rest.history[k - 1] && calls[k] == rest.calls[k - 1];
      }
    }
    if rest.calls != [] {
      assert calls[|calls| - 1] == rest.calls[|rest.calls| - 1];
    }
    assert i + 1 + |rest.calls| == i + |calls|;
  }

  /** Over a whole run: the model is called once for each line read before
      the loop stops, with the stripped line appended as a user entry; the
      transcript is replaced with exactly what the model returns; and exactly
      one history record, holding that line, is written per answered call. */
  lemma {:induction false} SpoolTurns(ctx: seq<Message>, inputs: seq<Event>, i: nat, converse: Conversation, model: string, cwd: string)
    ensures Consistent(ctx, Loop(ctx, inputs, i, converse, model, cwd), inputs, i, converse, model, cwd)
    decreases |inputs| - i
  {
    if Request(inputs, i).Some? {
      var line := Request(inputs, i).value;
      var sent := ctx + [Message(UserRole, line)];
      if converse(sent, model) == [] {
        LoopCrashes(ctx, inputs, i, converse, model, cwd);
        assert DropLast(sent) == ctx;
        assert CallShape(ctx, [sent], inputs, i, converse, model, 0);
      } else {
        LoopContinues(ctx, inputs, i, converse, model, cwd);
        SpoolTurns(converse(sent, model), inputs, i + 1, converse, model, cwd);
        ConsistentCons(ctx, line, Loop(converse(sent, model), inputs, i + 1, converse, model, cwd), inputs, i, converse, model, cwd);
      }
    } else {
      SpoolStops(ctx, inputs, i, converse, model, cwd);
    }
  }

  /** The outputs of the history records written, in order. */
  function Outputs(history: seq<Record>): (r: seq<string>)
    ensures |r| == |history|
  {
    if history == [] then [] else [history[0].output] + Outputs(history[1..])
  }

  /** A model that returns the transcript it was given plus one assistant entry. */
  ghost predicate AppendsOneReply(converse: Conversation, model: string) {
    forall t :: AddsReply(converse(t, model), t)
  }

  /** `answer` is `t` followed by one assistant entry. */
  predicate AddsReply(answer: seq<Message>, t: seq<Message>) {
    |answer| == |t| + 1 && answer[..|t|] == t && answer[|t|].role == AssistantRole
  }

  /** One turn with such a model adds the recorded reply to the replies. */
  lemma RepliesCons(ctx: seq<Message>, line: string, rest: Trace, converse: Conversation, model: string, cwd: string)
    requires AddsReply(converse(ctx + [Message(UserRole, line)], model), ctx + [Message(UserRole, line)])
    requires !rest.crashed
    requires Replies(rest.transcript) == Replies(converse(ctx + [Message(UserRole, line)], model)) + Outputs(rest.history)
    ensures var sent := ctx + [Message(UserRole, line)];
      var tr := Prepend([sent], [Record(line, [SpoolTag], Last(converse(sent, model)).content, cwd)], rest);
      !tr.crashed && Replies(tr.transcript) == Replies(ctx) + Outputs(tr.history)
  {
    var sent := ctx + [Message(UserRole, line)];
    var back := converse(sent, model);
    var reply := back[|sent|];
    assert back == sent + [reply];
    var record := Record(line, [SpoolTag], reply.content, cwd);
    assert Replies(back) == Replies(ctx) + [reply.content] by {
      RepliesConcat(ctx, [Message(UserRole, line)]);
      RepliesConcat(sent, [reply]);
      assert Replies([Message(UserRole, line)]) == [];
      assert Replies([reply]) == [reply.content];
    }
    assert Outputs([record] + rest.history) == [reply.content] + Outputs(rest.history) by {
      assert ([record] + rest.history)[1..] == rest.history;
    }
  }

  /** With such a model the loop never crashes, and the replies of the final
      transcript are those it started with followed by one reply per turn,
      the one recorded in that turn's history record. */
  lemma {:induction false} SpoolReplies(ctx: seq<Message>, inputs: seq<Event>, i: nat, converse: Conversation, model: string, cwd: string)
    requires AppendsOneReply(converse, model)
    ensures var tr := Loop(ctx, inputs, i, converse, model, cwd);
      !tr.crashed && Replies(tr.transcript) == Replies(ctx) + Outputs(tr.history)
    decreases |inputs| - i
  {
    if Request(inputs, i).Some? {
      var sent := ctx + [Message(UserRole, Request(inputs, i).value)];
      assert AddsReply(converse(sent, model), sent);
      LoopContinues(ctx, inputs, i, converse, model, cwd);
      SpoolReplies(converse(sent, model), inputs, i + 1, converse, model, cwd);
      RepliesCons(ctx, Request(inputs, i).value, Loop(converse(sent, model), inputs, i + 1, converse, model, cwd), converse, model, cwd);
    } else {
      SpoolStops(ctx, inputs, i, converse, model, cwd);
      assert Replies(ctx) + [] == Replies(ctx);
    }
  }

  /** The rows `get_all` supplies for seeding; none unless the count is positive. */
  function InheritedRows(getAll: int -> seq<Row>, inheritLast: int): seq<Row> {
    if inheritLast > 0 then getAll(inheritLast) else []
  }

  /** With a model that appends one reply per call, the contents joined into
      the result are the inherited outputs, oldest first, followed by the
      reply of every turn, in order. */
  lemma InheritedRepliesFirst(getAll: int -> seq<Row>, inheritLast: int, inputs: seq<Event>,
                              converse: Conversation, model: string, cwd: string)
    requires AppendsOneReply(converse, model)
    ensures var rows := InheritedRows(getAll, inheritLast);
      var tr := Loop(Initial(getAll, inheritLast), inputs, 0, converse, model, cwd);
      var replies := Replies(tr.transcript);
      && !tr.crashed
      && |replies| == |rows| + |tr.history|
      && (forall k :: 0 <= k < |rows| ==> replies[k] == rows[|rows| - 1 - k].output)
      && (forall k :: 0 <= k < |tr.history| ==> replies[|rows| + k] == tr.history[k].output)
  {
    var rows := InheritedRows(getAll, inheritLast);
    var ctx := Initial(getAll, inheritLast);
    assert ctx == Seeded(rows);
    SeededReplies(rows);
    SpoolReplies(ctx, inputs, 0, converse, model, cwd);
    var tr := Loop(ctx, inputs, 0, converse, model, cwd);
    OutputsAt(tr.history);
  }

  lemma {:induction false} OutputsAt(history: seq<Record>)
    ensures forall k :: 0 <= k < |history| ==> Outputs(history)[k] == history[k].output
  {
    if history != [] {
      OutputsAt(history[1..]);
    }
  }
}
