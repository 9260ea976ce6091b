/**
 The provider's channel from host-call tasks to the guest: what the async
 host-call callback sends, the loop that re-enters the guest, and what dropping
 the call context does to it.
 */
module ChannelLoop {
  import opened Basics
  import opened Int32
  import opened CallProtocol

  /** A message is tagged by its code, and the tag is later ignored. */
  datatype AsyncChannel = Ok(id: int32, code: int32) | Err(id: int32, code: int32) | Close

  /** What the callback of an async host call sends. */
  function Sent(m: Message): AsyncChannel {
    if m.code == 1 then AsyncChannel.Ok(m.id, m.code) else AsyncChannel.Err(m.id, m.code)
  }

  function AllSent(ms: seq<Message>): seq<AsyncChannel> {
    seq(|ms|, i requires 0 <= i < |ms| => Sent(ms[i]))
  }

  /** The guest entries a channel's content leads to, as far as the loop gets. */
  function Entries(channel: seq<AsyncChannel>): seq<Message> {
    if channel == [] || channel[0].Close? then []
    else [Message(channel[0].id, channel[0].code)] + Entries(channel[1..])
  }

  /** The loop task: `__host_call_response_ready(id, code)` per message, until `Close`, or
      until it is cancelled where it waits for its next message, after `receives` of them. */
  method Serve(channel: seq<AsyncChannel>, receives: nat) returns (entered: seq<Message>)
    requires receives <= |channel|
    ensures entered == Entries(channel[..receives])
  {
    entered := [];
    ghost var received := channel[..receives];
    var i := 0;
    while i < receives
      invariant 0 <= i <= receives
      invariant entered + Entries(received[i..]) == Entries(received)
    {
      assert received[i..][0] == channel[i] && received[i..][1..] == received[i + 1..];
      var result := channel[i];
      if result.Close? {
        break;
      }
      entered := entered + [Message(result.id, result.code)];
      i := i + 1;
    }
  }

  // ------------------------------------------------- the loop among the others

  /** The loop task; `pending` is what it has yet to receive. */
  datatype LoopTask = LoopTask(pending: seq<AsyncChannel>, entered: seq<Message>, closing: bool, ended: bool)

  const STARTED := LoopTask([], [], false, false)

  datatype Act =
    | Complete(m: Message)  // a host-call task sends its completion
    | Receive               // the loop receives, and enters the guest or breaks
    | SendClose             // the context is dropped: Close is sent ...
    | Abort                 // ... and then the task is cancelled where it waits

  predicate CanAct(l: LoopTask, act: Act) {
    match act
    case Complete(_) => true
    case Receive => !l.ended && l.pending != []
    case SendClose => !l.closing
    case Abort => l.closing
  }

  function Posted(act: Act): seq<AsyncChannel> {
    match act
    case Complete(m) => [Sent(m)]
    case SendClose => [Close]
    case _ => []
  }

  function DoAct(l: LoopTask, act: Act): LoopTask
    requires CanAct(l, act)
  {
    match act
    case Receive =>
      if l.pending[0].Close? then l.(pending := l.pending[1..], ended := true)
      else l.(pending := l.pending[1..], entered := l.entered + [Message(l.pending[0].id, l.pending[0].code)])
    case Abort => l.(ended := true)
    case _ => l.(pending := l.pending + Posted(act), closing := l.closing || act.SendClose?)
  }

  predicate Acts(acts: seq<Act>)
    decreases |acts|, 0
  {
    acts == [] || (Acts(acts[..|acts| - 1]) && CanAct(Loop(acts[..|acts| - 1]), acts[|acts| - 1]))
  }

  function Loop(acts: seq<Act>): LoopTask
    requires Acts(acts)
    decreases |acts|, 1
  {
    if acts == [] then STARTED else DoAct(Loop(acts[..|acts| - 1]), acts[|acts| - 1])
  }

  /** Everything put on the channel in a run. */
  function AllPosted(acts: seq<Act>): seq<AsyncChannel> {
    if acts == [] then [] else AllPosted(acts[..|acts| - 1]) + Posted(acts[|acts| - 1])
  }

  function Receives(acts: seq<Act>): nat {
    if acts == [] then 0 else Receives(acts[..|acts| - 1]) + if acts[|acts| - 1].Receive? then 1 else 0
  }

  /** The completions of a run that were sent before the context was dropped. */
  function BeforeDrop(acts: seq<Act>): seq<Message> {
    if acts == [] then []
    else
      var init, last := acts[..|acts| - 1], acts[|acts| - 1];
      BeforeDrop(init) + if last.Complete? && SendClose !in init then [last.m] else []
  }

  lemma {:induction false} EntriesSnoc(channel: seq<AsyncChannel>, c: AsyncChannel)
    ensures Entries(channel + [c]) == Entries(channel) + if Close in channel then [] else Entries([c])
  {
    if channel == [] {
      assert channel + [c] == [c];
    } else {
      assert (channel + [c])[1..] == channel[1..] + [c];
      assert channel == [channel[0]] + channel[1..];
      EntriesSnoc(channel[1..], c);
    }
  }

  /** The loop stands where `Serve` does after `n` receives of everything posted. */
  predicate Serving(l: LoopTask, all: seq<AsyncChannel>, n: nat) {
    && n <= |all| && l.pending == all[n..] && l.entered == Entries(all[..n])
    && (!l.ended ==> Close !in all[..n])
  }

  lemma ReceiveServes(l: LoopTask, all: seq<AsyncChannel>, n: nat)
    requires Serving(l, all, n) && CanAct(l, Receive)
    ensures Serving(DoAct(l, Receive), all, n + 1)
  {
    assert l.pending[0] == all[n] && l.pending[1..] == all[n + 1..];
    assert all[..n + 1] == all[..n] + [all[n]];
    EntriesSnoc(all[..n], all[n]);
    assert [all[n]][1..] == [];
  }

  lemma PostServes(l: LoopTask, all: seq<AsyncChannel>, n: nat, act: Act)
    requires Serving(l, all, n) && CanAct(l, act) && !act.Receive?
    ensures Serving(DoAct(l, act), all + Posted(act), n)
  {
    assert (all + Posted(act))[..n] == all[..n];
    assert (all + Posted(act))[n..] == all[n..] + Posted(act);
  }

  /** Any run of the loop is `Serve` on everything posted, stopped after as many receives. */
  lemma {:induction false} LoopServes(acts: seq<Act>)
    requires Acts(acts)
    ensures Serving(Loop(acts), AllPosted(acts), Receives(acts))
  {
    if acts == [] {
    } else {
      var init, last := acts[..|acts| - 1], acts[|acts| - 1];
      LoopServes(init);
      if last.Receive? {
        ReceiveServes(Loop(init), AllPosted(init), Receives(init));
        assert AllPosted(acts) == AllPosted(init);
      } else {
        PostServes(Loop(init), AllPosted(init), Receives(init), last);
      }
    }
  }

  lemma {:induction false} ClosingSince(acts: seq<Act>)
    requires Acts(acts)
    ensures Loop(acts).closing <==> SendClose in acts
  {
    if acts == [] {
    } else {
      var init, last := acts[..|acts| - 1], acts[|acts| - 1];
      assert acts == init + [last];
      ClosingSince(init);
    }
  }

  lemma AllSentSnoc(ms: seq<Message>, m: Message)
    ensures AllSent(ms + [m]) == AllSent(ms) + [Sent(m)]
  {
  }

  /** What is posted before the drop is the completions so far, and `Close` marks the drop. */
  lemma {:induction false} PostedInOrder(acts: seq<Act>) returns (late: seq<AsyncChannel>)
    requires Acts(acts)
    ensures AllPosted(acts) == AllSent(BeforeDrop(acts)) + if SendClose in acts then [Close] + late else []
    // A completion is tagged by its code.
    ensures forall c :: c in AllPosted(acts) ==> (c.Ok? ==> c.code == 1) && (c.Err? ==> c.code != 1)
  {
    if acts == [] {
      late := [];
    } else {
      var init, last := acts[..|acts| - 1], acts[|acts| - 1];
      assert acts == init + [last];
      var before := PostedInOrder(init);
      if SendClose in init {
        late := before + Posted(last);
        ClosingSince(init);
        assert AllPosted(acts) == AllSent(BeforeDrop(init)) + ([Close] + before) + Posted(last);
      } else {
        late := [];
        if last.Complete? {
          AllSentSnoc(BeforeDrop(init), last.m);
        }
      }
    }
  }

  function Least(a: nat, b: nat): nat { if a < b then a else b }

  /** Cut off after `n` receives, the loop has entered the guest for the first `n` completions. */
  lemma {:induction false} EntriesCutOff(ms: seq<Message>, rest: seq<AsyncChannel>, n: nat)
    requires rest != [] ==> rest[0].Close?
    requires n <= |ms| + |rest|
    ensures Entries((AllSent(ms) + rest)[..n]) == ms[..Least(n, |ms|)]
  {
    var channel := (AllSent(ms) + rest)[..n];
    if ms == [] || n == 0 {
      assert channel != [] ==> channel[0] == rest[0];
    } else {
      assert AllSent(ms) == [Sent(ms[0])] + AllSent(ms[1..]);
      assert channel[0] == Sent(ms[0]) && channel[1..] == (AllSent(ms[1..]) + rest)[..n - 1];
      EntriesCutOff(ms[1..], rest, n - 1);
      assert ms[..Least(n, |ms|)] == [ms[0]] + ms[1..][..Least(n - 1, |ms[1..]|)];
    }
  }

  /**
   In every run the guest has been entered for exactly as many of the completions sent
   before the drop as the loop has received: the first ones, unaltered and in order,
   whatever their tags, and nothing sent later.  All of them arrive exactly if all of
   them were received, and the drop's cancellation loses the others.
   */
  lemma {:induction false} CompletionsArrive(acts: seq<Act>)
    requires Acts(acts)
    ensures var ms := BeforeDrop(acts);
            && Loop(acts).entered == ms[..Least(Receives(acts), |ms|)]
            && (Loop(acts).entered == ms <==> Receives(acts) >= |ms|)
  {
    var late := PostedInOrder(acts);
    LoopServes(acts);
    EntriesCutOff(BeforeDrop(acts), if SendClose in acts then [Close] + late else [], Receives(acts));
  }

  lemma Snoc(acts: seq<Act>, act: Act)
    requires Acts(acts) && CanAct(Loop(acts), act)
    ensures Acts(acts + [act]) && Loop(acts + [act]) == DoAct(Loop(acts), act)
    ensures Receives(acts + [act]) == Receives(acts) + if act.Receive? then 1 else 0
    ensures BeforeDrop(acts + [act]) == BeforeDrop(acts) + if act.Complete? && SendClose !in acts then [act.m] else []
  {
    assert (acts + [act])[..|acts|] == acts;
  }

  lemma {:induction false} EndedIsClosing(acts: seq<Act>)
    requires Acts(acts)
    ensures Loop(acts).ended ==> Loop(acts).closing
    ensures Close in Loop(acts).pending ==> Loop(acts).closing
  {
    if acts == [] {
    } else {
      EndedIsClosing(acts[..|acts| - 1]);
    }
  }

  /** Once the loop has ended it enters the guest no more, whatever is still queued or sent. */
  lemma {:induction false} EndedStays(acts: seq<Act>, act: Act)
    requires Acts(acts) && Loop(acts).ended && CanAct(Loop(acts), act)
    ensures Acts(acts + [act]) && Loop(acts + [act]).ended
    ensures Loop(acts + [act]).entered == Loop(acts).entered
    ensures BeforeDrop(acts + [act]) == BeforeDrop(acts)
  {
    Snoc(acts, act);
    EndedIsClosing(acts);
    ClosingSince(acts);
  }

  /** All completions are sent, and nothing else happens. */
  lemma {:induction false} SendAll(ms: seq<Message>) returns (acts: seq<Act>)
    ensures Acts(acts) && SendClose !in acts && BeforeDrop(acts) == ms && Receives(acts) == 0
    ensures Loop(acts) == LoopTask(AllSent(ms), [], false, false)
  {
    if ms == [] {
      acts := [];
    } else {
      var init, last := ms[..|ms| - 1], ms[|ms| - 1];
      var fewer := SendAll(init);
      Snoc(fewer, Complete(last));
      acts := fewer + [Complete(last)];
      assert init + [last] == ms;
      AllSentSnoc(init, last);
    }
  }

  /** The loop then receives the first `n`. */
  lemma {:induction false} ReceiveSome(ms: seq<Message>, n: nat) returns (acts: seq<Act>)
    requires n <= |ms|
    ensures Acts(acts) && SendClose !in acts && BeforeDrop(acts) == ms && Receives(acts) == n
    ensures var l := Loop(acts);
            l.pending == AllSent(ms)[n..] && !l.closing && !l.ended
  {
    if n == 0 {
      acts := SendAll(ms);
    } else {
      var fewer := ReceiveSome(ms, n - 1);
      assert AllSent(ms)[n - 1..][0] == Sent(ms[n - 1]) && AllSent(ms)[n - 1..][1..] == AllSent(ms)[n..];
      Snoc(fewer, Receive);
      acts := fewer + [Receive];
    }
  }

  /** Any number of completions can be lost: a drop may come after each of them. */
  lemma DropCanLose(ms: seq<Message>, n: nat) returns (acts: seq<Act>)
    requires n <= |ms|
    ensures Acts(acts) && Loop(acts).ended
    ensures BeforeDrop(acts) == ms && Loop(acts).entered == ms[..n]
  {
    var before := ReceiveSome(ms, n);
    Snoc(before, SendClose);
    var closed := before + [SendClose];
    Snoc(closed, Abort);
    acts := closed + [Abort];
    CompletionsArrive(acts);
  }
}
