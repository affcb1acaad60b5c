/** The `/api/chatroomSSE` handler, run sequentially: the producer loop issues a
    message number from the shared counter, builds the template data, renders
    it and hands the fragment to the writer, until the request context is seen
    done at the top of an iteration or a render fails; the writer frames the
    fragments in the order it receives them.

    The request context is observed only at the top of each iteration and, once
    done, stays done; so the whole of its behaviour is captured by `cancelAt`,
    the index of the first iteration whose check finds it done. Template
    execution is the function `render`, which gives None when it fails. */
module ChatroomSSE {
  import opened Wrappers
  import opened GoText
  import opened AppState
  import opened EventStream

  /** `api.MessageTemplateData`: the value the message template is executed with. */
  datatype MessageTemplateData = MessageTemplateData(senderName: string, message: string)

  /** Execution of the message template: the rendered fragment, or None on failure. */
  type Renderer = MessageTemplateData -> Option<string>

  const DefaultSender: string := "DEFAULT"

  /** The template data built for counter value `n`: sender `DEFAULT`, body `Message <n>`. */
  function MessageFor(n: int): (d: MessageTemplateData)
    ensures d.senderName == DefaultSender
    ensures "Message " < d.message
  {
    MessageTemplateData(DefaultSender, "Message " + Decimal(n))
  }

  /** Executes the message template on the data built for number `n`. */
  function RenderMessage(render: Renderer, n: int): Option<string> {
    render(MessageFor(n))
  }

  /** Different counter values give different messages, so no two messages of
      any sessions are alike. */
  lemma MessageForInjective(m: int, n: int)
    requires MessageFor(m) == MessageFor(n)
    ensures m == n
  {
    var p := "Message ";
    assert (p + Decimal(m))[|p|..] == Decimal(m);
    assert (p + Decimal(n))[|p|..] == Decimal(n);
    DecimalInjective(m, n);
  }

  /** Why the producer stopped: the context was done, or a render failed. */
  datatype SessionEnd = Cancelled | RenderFailed

  /** The outcome of a producer run: the fragments sent on the channel, in order,
      how many numbers it drew from the counter, and why it stopped. */
  datatype Run = Run(channel: seq<string>, issued: nat, end: SessionEnd)

  /** The producer loop from a point where `channel` has been sent and `drawn`
      numbers drawn, the counter stands at `last`, and the context will be seen
      done at the top of the iteration `left` iterations from now. A render
      failure stops the loop after its number was drawn (`NewMessage` is
      evaluated before the template is executed) and before anything is sent. */
  function Producing(channel: seq<string>, drawn: nat, last: int, left: nat, render: Renderer): (r: Run)
    ensures channel <= r.channel && |r.channel| <= |channel| + left
    decreases left
  {
    if left == 0 then Run(channel, drawn, Cancelled)
    else
      match RenderMessage(render, last + 1)
      case None => Run(channel, drawn + 1, RenderFailed)
      case Some(fragment) => Producing(channel + [fragment], drawn + 1, last + 1, left - 1, render)
  }

  /** A whole producer run: the counter stands at `last` and the context is first
      seen done at the top of iteration `cancelAt`. */
  function Session(last: int, cancelAt: nat, render: Renderer): (r: Run)
    ensures |r.channel| <= r.issued <= cancelAt
  {
    ProducingBounds([], 0, last, cancelAt, render);
    Producing([], 0, last, cancelAt, render)
  }

  /** From any point of the loop: what was sent stays sent, at most one fragment
      is added per iteration, and one number is drawn per fragment plus one for
      a failed render. */
  lemma {:induction false} ProducingBounds(channel: seq<string>, drawn: nat, last: int, left: nat, render: Renderer)
    ensures var r := Producing(channel, drawn, last, left, render);
      && channel <= r.channel
      && |r.channel| <= |channel| + left
      && (r.end == Cancelled ==> |r.channel| == |channel| + left && r.issued == drawn + left)
      && (r.end == RenderFailed ==> |r.channel| < |channel| + left && r.issued == drawn + (|r.channel| - |channel|) + 1)
    decreases left
  {
    if left > 0 && RenderMessage(render, last + 1).Some? {
      var fragment := RenderMessage(render, last + 1).value;
      ProducingBounds(channel + [fragment], drawn + 1, last + 1, left - 1, render);
    }
  }

  /** The fragments a run adds are the renderings of the following numbers, in order. */
  lemma {:induction false} ProducingFragment(channel: seq<string>, drawn: nat, last: int, left: nat, render: Renderer, i: nat)
    requires |channel| <= i < |Producing(channel, drawn, last, left, render).channel|
    ensures RenderMessage(render, last + (i - |channel|) + 1) == Some(Producing(channel, drawn, last, left, render).channel[i])
    decreases left
  {
    assert left > 0 && RenderMessage(render, last + 1).Some?;
    var fragment := RenderMessage(render, last + 1).value;
    if i == |channel| {
      ProducingBounds(channel + [fragment], drawn + 1, last + 1, left - 1, render);
    } else {
      ProducingFragment(channel + [fragment], drawn + 1, last + 1, left - 1, render, i);
    }
  }

  /** A run stopped by a render failure stops on the first number whose render fails. */
  lemma {:induction false} ProducingRenderFailure(channel: seq<string>, drawn: nat, last: int, left: nat, render: Renderer)
    requires Producing(channel, drawn, last, left, render).end == RenderFailed
    ensures RenderMessage(render, last + (|Producing(channel, drawn, last, left, render).channel| - |channel|) + 1) == None
    decreases left
  {
    if RenderMessage(render, last + 1).Some? {
      var fragment := RenderMessage(render, last + 1).value;
      ProducingRenderFailure(channel + [fragment], drawn + 1, last + 1, left - 1, render);
    }
  }

  /** A run ends by cancellation exactly when every number it would draw renders. */
  lemma {:induction false} ProducingCancelledIff(channel: seq<string>, drawn: nat, last: int, left: nat, render: Renderer)
    ensures Producing(channel, drawn, last, left, render).end == Cancelled
        <==> forall n :: last < n <= last + left ==> RenderMessage(render, n).Some?
    decreases left
  {
    if left > 0 && RenderMessage(render, last + 1).Some? {
      var fragment := RenderMessage(render, last + 1).value;
      ProducingCancelledIff(channel + [fragment], drawn + 1, last + 1, left - 1, render);
    }
  }

  /** A session sends at most `cancelAt` fragments. Cancelled before its first
      iteration, it sends nothing and draws no number; ended by cancellation, it
      sent `cancelAt` fragments and drew as many numbers; ended by a render
      failure, it drew one number more than it sent. */
  lemma SessionBounds(last: int, cancelAt: nat, render: Renderer)
    ensures var r := Session(last, cancelAt, render);
      && |r.channel| <= cancelAt
      && (cancelAt == 0 ==> r.channel == [] && r.issued == 0 && r.end == Cancelled)
      && (r.end == Cancelled ==> |r.channel| == cancelAt && r.issued == cancelAt)
      && (r.end == RenderFailed ==> |r.channel| < cancelAt && r.issued == |r.channel| + 1)
  {
    ProducingBounds([], 0, last, cancelAt, render);
  }

  /** The i-th fragment a session sends is the rendering of message number
      `last + i + 1`: numbers are used in order and none is skipped. */
  lemma SessionFragment(last: int, cancelAt: nat, render: Renderer, i: nat)
    requires i < |Session(last, cancelAt, render).channel|
    ensures RenderMessage(render, last + i + 1) == Some(Session(last, cancelAt, render).channel[i])
  {
    ProducingFragment([], 0, last, cancelAt, render, i);
  }

  /** A session stopped by a render failure stops on the first number whose render
      fails, without sending it. */
  lemma SessionRenderFailure(last: int, cancelAt: nat, render: Renderer)
    requires Session(last, cancelAt, render).end == RenderFailed
    ensures RenderMessage(render, last + |Session(last, cancelAt, render).channel| + 1) == None
  {
    ProducingRenderFailure([], 0, last, cancelAt, render);
  }

  /** A session ends by cancellation, having sent `cancelAt` fragments, exactly when
      every message it draws renders. */
  lemma SessionCancelledIff(last: int, cancelAt: nat, render: Renderer)
    ensures Session(last, cancelAt, render).end == Cancelled
        <==> forall n :: last < n <= last + cancelAt ==> RenderMessage(render, n).Some?
  {
    ProducingCancelledIff([], 0, last, cancelAt, render);
  }

  /** The producer goroutine's loop, on the shared counter. */
  method Produce(state: ApplicationState, cancelAt: nat, render: Renderer)
    returns (channel: seq<string>, end: SessionEnd)
    requires state.Valid()
    modifies state
    ensures state.Valid()
    ensures var run := Session(old(state.totalMessagesSent), cancelAt, render);
      && channel == run.channel
      && end == run.end
      && state.totalMessagesSent == old(state.totalMessagesSent) + run.issued
  {
    ghost var last := state.totalMessagesSent;
    ghost var run := Session(last, cancelAt, render);
    channel := [];
    var iteration := 0;
    while true
      invariant 0 <= iteration <= cancelAt && |channel| == iteration
      invariant state.Valid() && state.totalMessagesSent == last + iteration
      invariant run == Producing(channel, iteration, last + iteration, cancelAt - iteration, render)
      decreases cancelAt - iteration
    {
      if iteration == cancelAt {
        end := Cancelled;
        return;
      }
      var n := state.NewMessage();
      var rendered := RenderMessage(render, n);
      if rendered.None? {
        end := RenderFailed;
        return;
      }
      channel := channel + [rendered.value];
      iteration := iteration + 1;
    }
  }

  /** The whole handler: the body written to the client is the framing of the
      producer's fragments, in the order they were sent. */
  method Serve(state: ApplicationState, cancelAt: nat, render: Renderer)
    returns (body: string, end: SessionEnd)
    requires state.Valid()
    modifies state
    ensures state.Valid()
    ensures var run := Session(old(state.totalMessagesSent), cancelAt, render);
      && body == Stream(run.channel)
      && end == run.end
      && state.totalMessagesSent == old(state.totalMessagesSent) + run.issued
  {
    var channel;
    channel, end := Produce(state, cancelAt, render);
    body := WriteStream(channel);
  }

  /** What the client reads from a session's body: one event per fragment sent,
      the i-th being the rendering of message number `last + i + 1` without its
      trailing newline. */
  lemma SessionEvents(last: int, cancelAt: nat, render: Renderer, i: nat)
    requires i < |Session(last, cancelAt, render).channel|
    ensures |Decode(Stream(Session(last, cancelAt, render).channel))| == |Session(last, cancelAt, render).channel|
    ensures RenderMessage(render, last + i + 1).Some?
    ensures Decode(Stream(Session(last, cancelAt, render).channel))[i]
         == TrimSuffix(RenderMessage(render, last + i + 1).value, "\n")
  {
    var channel := Session(last, cancelAt, render).channel;
    DecodeStream(channel);
    SessionFragment(last, cancelAt, render, i);
  }
}
