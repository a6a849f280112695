/** The per-chat behaviour of the bot: `start` and `handle_message`.

    Everything a handler does that can be observed — starting and cancelling the
    typing task, calling the completion service, writing the stored response id,
    sending a message — is recorded in order as an `Action`. Whatever the outside
    world decides (whether `create_task` works, what `responses.create` returns,
    which `reply_text` calls raise) is a parameter. */
module TelegramBot {
  import opened Responses
  import opened Replies
  import opened Sequences

  /** The arguments of `responses.create` that depend on the chat: the user's text
      and `previous_response_id`. */
  datatype Request = Request(userText: string, previousResponseId: Option<string>)

  datatype Action =
    | Reset                     // chat_data['last_response_id'] = None
    | StartTyping               // asyncio.create_task(show_typing(...))
    | Create(request: Request)  // client.responses.create(...)
    | Store(id: string)         // chat_data['last_response_id'] = response.id
    | Send(msg: Outgoing)       // a reply_text call that went through
    | CancelTyping              // typing_task.cancel()

  /** Actions that do not write the stored response id. */
  predicate Passive(a: Action)
  {
    !a.Store? && !a.Reset?
  }

  /** One successful `Send` per message, in order. */
  function Sends(msgs: seq<Outgoing>): (r: seq<Action>)
    ensures |r| == |msgs|
    ensures forall k :: 0 <= k < |r| ==> r[k] == Send(msgs[k])
  {
    if msgs == [] then [] else [Send(msgs[0])] + Sends(msgs[1..])
  }

  /** The messages a trace delivered to the chat, in order. */
  function Delivered(t: seq<Action>): seq<Outgoing>
  {
    if t == [] then [] else (if t[0].Send? then [t[0].msg] else []) + Delivered(t[1..])
  }

  lemma {:induction false} DeliveredAppend(a: seq<Action>, b: seq<Action>)
    ensures Delivered(a + b) == Delivered(a) + Delivered(b)
  {
    if a == [] {
      assert a + b == b;
    } else {
      DropFirst(a, b);
      DeliveredAppend(a[1..], b);
      var h := if a[0].Send? then [a[0].msg] else [];
      assert (a + b)[0] == a[0];
      Assoc(h, Delivered(a[1..]), Delivered(b));
    }
  }

  lemma {:induction false} DeliveredSends(msgs: seq<Outgoing>)
    ensures Delivered(Sends(msgs)) == msgs
  {
    if msgs != [] {
      assert Sends(msgs)[1..] == Sends(msgs[1..]);
      DeliveredSends(msgs[1..]);
    }
  }

  /** A trace without `Send` actions delivers nothing. */
  lemma {:induction false} DeliveredSilent(t: seq<Action>)
    requires forall k :: 0 <= k < |t| ==> !t[k].Send?
    ensures Delivered(t) == []
  {
    if t != [] {
      DeliveredSilent(t[1..]);
    }
  }

  /** The value of chat_data['last_response_id'] after a trace: the id of the last
      `Store`, unless a `Reset` came after it; None for a new chat. */
  function StoredBy(t: seq<Action>): Option<string>
  {
    if t == [] then None
    else match t[|t| - 1]
      case Store(id) => Some(id)
      case Reset => None
      case _ => StoredBy(t[..|t| - 1])
  }

  /** Actions that do not write the stored id leave it as it was. */
  lemma {:induction false} StoredByPassive(t: seq<Action>, u: seq<Action>)
    requires forall k :: 0 <= k < |u| ==> Passive(u[k])
    ensures StoredBy(t + u) == StoredBy(t)
  {
    if u == [] {
      assert t + u == t;
    } else {
      var w := u[..|u| - 1];
      DropLast(t, u);
      StoredByPassive(t, w);
    }
  }

  /** Once the stored id is None, it stays None until the next `Store`. */
  lemma {:induction false} StoredByNoStore(t: seq<Action>, u: seq<Action>)
    requires StoredBy(t) == None
    requires forall k :: 0 <= k < |u| ==> !u[k].Store?
    ensures StoredBy(t + u) == None
  {
    if u == [] {
      assert t + u == t;
    } else {
      var w := u[..|u| - 1];
      DropLast(t, u);
      StoredByNoStore(t, w);
    }
  }

  /** The continuation protocol: every request carries, as `previous_response_id`,
      the stored id at the moment it is issued. */
  ghost predicate Continues(t: seq<Action>)
  {
    forall i :: 0 <= i < |t| && t[i].Create? ==> t[i].request.previousResponseId == StoredBy(t[..i])
  }

  /** Appending actions whose requests carry the stored id keeps the protocol. */
  lemma ContinuesAppend(t: seq<Action>, u: seq<Action>)
    requires Continues(t)
    requires forall k :: 0 <= k < |u| && u[k].Create? ==>
      u[k].request.previousResponseId == StoredBy(t + u[..k])
    ensures Continues(t + u)
  {
    forall i | 0 <= i < |t + u| && (t + u)[i].Create?
      ensures (t + u)[i].request.previousResponseId == StoredBy((t + u)[..i])
    {
      TakeConcat(t, u, i);
      if i < |t| {
        assert (t + u)[i] == t[i] && (t + u)[..i] == t[..i];
      } else {
        assert (t + u)[i] == u[i - |t|] && (t + u)[..i] == t + u[..i - |t|];
      }
    }
  }

  /** Right after a `start`, and until the next successful completion, every request
      is issued with no previous response id. */
  lemma RequestAfterReset(p: seq<Action>, q: seq<Action>)
    requires Continues(p + [Reset] + q)
    requires forall k :: 0 <= k < |q| ==> !q[k].Store?
    ensures forall k :: 0 <= k < |q| && q[k].Create? ==> q[k].request.previousResponseId == None
  {
    var t := p + [Reset] + q;
    forall k | 0 <= k < |q| && q[k].Create?
      ensures q[k].request.previousResponseId == None
    {
      var i := |p| + 1 + k;
      assert t[i] == q[k];
      assert t[..i] == (p + [Reset]) + q[..k];
      StoredByNoStore(p + [Reset], q[..k]);
    }
  }

  /** How many `reply_text` calls, numbered from 0, go through before the first one
      that raises (or all `n` of them). */
  function OkPrefix(n: nat, fails: set<nat>): (k: nat)
    ensures k <= n
    ensures forall o :: 0 <= o < k ==> o !in fails
    ensures k < n ==> k in fails
  {
    if n == 0 then 0
    else
      var k := OkPrefix(n - 1, fails);
      if k < n - 1 then k else if n - 1 in fails then n - 1 else n
  }

  /** The three properties of OkPrefix determine it. */
  lemma OkPrefixIs(n: nat, fails: set<nat>, d: nat)
    requires d <= n
    requires forall o :: 0 <= o < d ==> o !in fails
    requires d < n ==> d in fails
    ensures OkPrefix(n, fails) == d
  {
  }

  /** The except clause (lines 106-113): the apology is `reply_text` call number
      `at`; if it goes through and the typing task exists, it is cancelled.
      If the apology raises, the exception leaves the handler and nothing else happens. */
  function Recover(at: nat, fails: set<nat>, typing: bool): seq<Action>
  {
    if at in fails then [] else [Send(Apology)] + (if typing then [CancelTyping] else [])
  }

  /** The try block (lines 53-104) ends by an exception: `create_task` or
      `responses.create` raised, or one of the reply calls did. */
  function Raises(taskCreated: bool, outcome: Outcome, fails: set<nat>): bool
  {
    !taskCreated || outcome.Failure? ||
    OkPrefix(|Planned(outcome.output)|, fails) < |Planned(outcome.output)|
  }

  /** How many `reply_text` calls the try block makes, the one that raised included. */
  function TryCalls(taskCreated: bool, outcome: Outcome, fails: set<nat>): nat
  {
    if !taskCreated || outcome.Failure? then 0
    else
      var n := |Planned(outcome.output)|;
      var k := OkPrefix(n, fails);
      if k < n then k + 1 else k
  }

  /** An exception leaves `handle_message`: the apology itself raised. */
  function Escapes(taskCreated: bool, outcome: Outcome, fails: set<nat>): bool
  {
    Raises(taskCreated, outcome, fails) && TryCalls(taskCreated, outcome, fails) in fails
  }

  /** The try block up to its first `reply_text` call: start typing (line 55), issue
      the request with the stored id (lines 61-83), store the new id (line 86).
      Each step happens only if the one before did not raise. */
  function Opening(stored: Option<string>, text: string, taskCreated: bool,
                   outcome: Outcome): (r: seq<Action>)
    ensures |r| == if !taskCreated then 0 else if outcome.Success? then 3 else 2
    ensures forall i :: 0 <= i < |r| ==>
      !r[i].Send? && !r[i].CancelTyping? && !r[i].Reset? &&
      (r[i].Store? ==> i == 2) && (r[i].Create? ==> i == 1)
    ensures taskCreated ==> r[0] == StartTyping && r[1] == Create(Request(text, stored))
    ensures taskCreated && outcome.Success? ==> r[2] == Store(outcome.id)
  {
    if !taskCreated then []
    else if outcome.Failure? then [StartTyping, Create(Request(text, stored))]
    else [StartTyping, Create(Request(text, stored)), Store(outcome.id)]
  }

  /** The replies of the try block that went through (lines 88-101). */
  function Tried(taskCreated: bool, outcome: Outcome, fails: set<nat>): (r: seq<Outgoing>)
    ensures forall k :: 0 <= k < |r| ==> r[k] != Apology
  {
    if taskCreated && outcome.Success? then
      var plan := Planned(outcome.output);
      plan[..OkPrefix(|plan|, fails)]
    else []
  }

  /** How the call ends: the cancel on line 104 when the try block completed, the
      except clause when it raised. */
  function Closing(taskCreated: bool, outcome: Outcome, fails: set<nat>): (r: seq<Action>)
    ensures forall i :: 0 <= i < |r| ==> r[i] == Send(Apology) || r[i] == CancelTyping
    ensures forall i :: 0 <= i < |r| && r[i] == CancelTyping ==> i == |r| - 1
  {
    if Raises(taskCreated, outcome, fails) then
      Recover(TryCalls(taskCreated, outcome, fails), fails, taskCreated)
    else [CancelTyping]
  }

  /** What one call of `handle_message` does, for the stored id it starts from, the
      user's text, whether `create_task` succeeds, what `responses.create` does, and
      which of its `reply_text` calls raise (by number, from 0). */
  function HandleSteps(stored: Option<string>, text: string, taskCreated: bool,
                       outcome: Outcome, fails: set<nat>): seq<Action>
  {
    Opening(stored, text, taskCreated, outcome) + Sends(Tried(taskCreated, outcome, fails)) +
    Closing(taskCreated, outcome, fails)
  }

  /** The shape of a call whose typing task started and whose request succeeded:
      start typing, create, store the new id, the replies that went through, then
      either the cancel or the except clause. */
  lemma SuccessLayout(stored: Option<string>, text: string, outcome: Outcome, fails: set<nat>)
    requires outcome.Success?
    ensures var plan := Planned(outcome.output);
      var k := OkPrefix(|plan|, fails);
      HandleSteps(stored, text, true, outcome, fails) ==
        [StartTyping, Create(Request(text, stored)), Store(outcome.id)] + Sends(plan[..k]) +
        (if k == |plan| then [CancelTyping] else Recover(k + 1, fails, true))
  {
  }

  /** The shape of a call in which `create_task` or `responses.create` raised:
      at most the start of typing and the request, then the except clause. */
  lemma FailureLayout(stored: Option<string>, text: string, taskCreated: bool,
                      outcome: Outcome, fails: set<nat>)
    requires !taskCreated || outcome.Failure?
    ensures HandleSteps(stored, text, taskCreated, outcome, fails) ==
      (if taskCreated then [StartTyping, Create(Request(text, stored))] else []) +
      Recover(0, fails, taskCreated)
  {
    var o := Opening(stored, text, taskCreated, outcome);
    assert Sends(Tried(taskCreated, outcome, fails)) == [];
    assert o + [] == o;
  }

  /** A request is issued exactly when the typing task was created, once, and it
      carries the stored id as `previous_response_id` (line 82). */
  lemma HandleRequest(stored: Option<string>, text: string, taskCreated: bool,
                      outcome: Outcome, fails: set<nat>)
    ensures var s := HandleSteps(stored, text, taskCreated, outcome, fails);
      (taskCreated ==> |s| > 1 && s[1] == Create(Request(text, stored))) &&
      (forall i :: 0 <= i < |s| && s[i].Create? ==> taskCreated && i == 1)
  {
    RequestOnce(Opening(stored, text, taskCreated, outcome), Tried(taskCreated, outcome, fails),
                Closing(taskCreated, outcome, fails), Request(text, stored), taskCreated);
  }

  /** The request of an opening is the only one of the whole call. */
  lemma RequestOnce(o: seq<Action>, msgs: seq<Outgoing>, c: seq<Action>, req: Request, issued: bool)
    requires issued ==> |o| > 1 && o[1] == Create(req)
    requires forall i :: 0 <= i < |o| && o[i].Create? ==> issued && i == 1
    requires forall i :: 0 <= i < |c| ==> c[i].Send? || c[i].CancelTyping?
    ensures var s := o + Sends(msgs) + c;
      (issued ==> |s| > 1 && s[1] == Create(req)) &&
      (forall i :: 0 <= i < |s| && s[i].Create? ==> issued && i == 1)
  {
    OpeningFirst(o, msgs, c);
  }

  /** In an opening followed by sends and an ending of sends and cancels, the
      first actions are the opening's, and only they can be anything else. */
  lemma OpeningFirst(o: seq<Action>, msgs: seq<Outgoing>, c: seq<Action>)
    requires forall i :: 0 <= i < |c| ==> c[i].Send? || c[i].CancelTyping?
    ensures var s := o + Sends(msgs) + c;
      (forall i :: 0 <= i < |o| ==> s[i] == o[i]) &&
      (forall i :: 0 <= i < |s| && !s[i].Send? && !s[i].CancelTyping? ==> i < |o|)
  {
    var m := Sends(msgs);
    var s := o + m + c;
    forall i | 0 <= i < |s| && !s[i].Send? && !s[i].CancelTyping? ensures i < |o| {
      Concat3At(o, m, c, i);
    }
  }

  /** The stored id after a call: the new response's id when `create` returned
      (line 86), whatever happened to the replies afterwards; otherwise unchanged. */
  lemma HandleStoredId(t: seq<Action>, stored: Option<string>, text: string, taskCreated: bool,
                       outcome: Outcome, fails: set<nat>)
    ensures StoredBy(t + HandleSteps(stored, text, taskCreated, outcome, fails)) ==
      if taskCreated && outcome.Success? then Some(outcome.id) else StoredBy(t)
  {
    var o := Opening(stored, text, taskCreated, outcome);
    var m := Tried(taskCreated, outcome, fails);
    var c := Closing(taskCreated, outcome, fails);
    Regroup(t, o, Sends(m), c);
    OpeningStored(t, stored, text, taskCreated, outcome);
    SendsPassive(m, c);
    StoredByPassive(t + o, Sends(m) + c);
  }

  /** The stored id after the opening of a call. */
  lemma OpeningStored(t: seq<Action>, stored: Option<string>, text: string, taskCreated: bool,
                      outcome: Outcome)
    ensures StoredBy(t + Opening(stored, text, taskCreated, outcome)) ==
      if taskCreated && outcome.Success? then Some(outcome.id) else StoredBy(t)
  {
    var o := Opening(stored, text, taskCreated, outcome);
    if !(taskCreated && outcome.Success?) {
      StoredByPassive(t, o);
    }
  }

  /** Sends followed by sends and cancels write no stored id. */
  lemma SendsPassive(msgs: seq<Outgoing>, c: seq<Action>)
    requires forall i :: 0 <= i < |c| ==> c[i].Send? || c[i].CancelTyping?
    ensures forall i :: 0 <= i < |Sends(msgs) + c| ==> Passive((Sends(msgs) + c)[i])
  {
    var u := Sends(msgs) + c;
    forall i | 0 <= i < |u| ensures Passive(u[i]) {
      if i >= |msgs| {
        assert u[i] == c[i - |msgs|];
      }
    }
  }

  /** A call keeps the continuation protocol: its request carries the id stored
      when it starts. */
  lemma HandleContinues(t: seq<Action>, text: string, taskCreated: bool,
                        outcome: Outcome, fails: set<nat>)
    requires Continues(t)
    ensures Continues(t + HandleSteps(StoredBy(t), text, taskCreated, outcome, fails))
  {
    var s := HandleSteps(StoredBy(t), text, taskCreated, outcome, fails);
    HandleRequest(StoredBy(t), text, taskCreated, outcome, fails);
    forall k | 0 <= k < |s| && s[k].Create?
      ensures s[k].request.previousResponseId == StoredBy(t + s[..k])
    {
      assert k == 1;
      assert s[..1] == [StartTyping];
      StoredByPassive(t, s[..1]);
    }
    ContinuesAppend(t, s);
  }

  /** The new id is stored before any reply is sent (line 86 comes before lines 89-101). */
  lemma StoreBeforeReplies(stored: Option<string>, text: string, taskCreated: bool,
                           outcome: Outcome, fails: set<nat>)
    ensures var s := HandleSteps(stored, text, taskCreated, outcome, fails);
      forall i, j :: 0 <= i < |s| && 0 <= j < |s| && s[i].Store? && s[j].Send? ==> i < j
  {
    OpeningFirst(Opening(stored, text, taskCreated, outcome), Tried(taskCreated, outcome, fails),
                 Closing(taskCreated, outcome, fails));
  }

  /** A trace extended by the sends of `a` and then of `b`. */
  lemma TraceSends(t: seq<Action>, a: seq<Outgoing>, b: seq<Outgoing>)
    ensures t + Sends(a) + Sends(b) == t + Sends(a + b)
  {
    SendsAppend(a, b);
    Assoc(t, Sends(a), Sends(b));
  }

  /** A trace extended by the reply of one content part. */
  lemma TraceReply(t: seq<Action>, sent: seq<Outgoing>, part: ContentPart)
    ensures part.OutputText? ==>
      t + Sends(sent) + [Send(Text(part.text))] == t + Sends(sent + PartReply(part))
    ensures !part.OutputText? ==> t + Sends(sent) == t + Sends(sent + PartReply(part))
  {
    if part.OutputText? {
      assert Sends(PartReply(part)) == [Send(Text(part.text))];
      TraceSends(t, sent, PartReply(part));
    } else {
      assert sent + PartReply(part) == sent;
    }
  }

  /** Delivered messages of the except clause. */
  lemma DeliveredRecover(at: nat, fails: set<nat>, typing: bool)
    ensures Delivered(Recover(at, fails, typing)) == if at in fails then [] else [Apology]
  {
    var r := Recover(at, fails, typing);
    if at in fails {
      DeliveredSilent(r);
    } else {
      var c: seq<Action> := if typing then [CancelTyping] else [];
      assert r == [Send(Apology)] + c;
      DeliveredAppend([Send(Apology)], c);
      DeliveredSilent(c);
    }
  }

  /** The end of a call delivers the apology exactly when the try block raised
      and the apology went through. */
  lemma ClosingDelivered(taskCreated: bool, outcome: Outcome, fails: set<nat>)
    ensures Delivered(Closing(taskCreated, outcome, fails)) ==
      if Raises(taskCreated, outcome, fails) && !Escapes(taskCreated, outcome, fails)
      then [Apology] else []
  {
    if Raises(taskCreated, outcome, fails) {
      DeliveredRecover(TryCalls(taskCreated, outcome, fails), fails, taskCreated);
    } else {
      DeliveredSilent([CancelTyping]);
    }
  }

  /** The end of a call cancels the typing task exactly when it exists and
      no exception leaves the handler. */
  lemma ClosingCancel(taskCreated: bool, outcome: Outcome, fails: set<nat>)
    ensures CancelTyping in Closing(taskCreated, outcome, fails) <==>
      taskCreated && !Escapes(taskCreated, outcome, fails)
  {
  }

  /** Delivered messages of a trace made of a silent head, some sends and a tail. */
  lemma DeliveredLayout(pre: seq<Action>, msgs: seq<Outgoing>, tail: seq<Action>)
    requires forall i :: 0 <= i < |pre| ==> !pre[i].Send?
    ensures Delivered(pre + Sends(msgs) + tail) == msgs + Delivered(tail)
  {
    var mid := Sends(msgs);
    DeliveredAppend(pre + mid, tail);
    DeliveredAppend(pre, mid);
    DeliveredSilent(pre);
    DeliveredSends(msgs);
    assert Delivered(pre) + Delivered(mid) == msgs;
  }

  /** Every message sent is either the apology or the planned reply at the same
      position among the sends. */
  lemma HandleSendsAt(stored: Option<string>, text: string, taskCreated: bool,
                      outcome: Outcome, fails: set<nat>)
    ensures var s := HandleSteps(stored, text, taskCreated, outcome, fails);
      forall i :: 0 <= i < |s| && s[i].Send? ==>
        s[i].msg == Apology ||
        (taskCreated && outcome.Success? && 3 <= i < 3 + |Planned(outcome.output)| &&
         s[i].msg == Planned(outcome.output)[i - 3])
  {
    var o := Opening(stored, text, taskCreated, outcome);
    var d := Tried(taskCreated, outcome, fails);
    var m := Sends(d);
    var c := Closing(taskCreated, outcome, fails);
    var s := o + m + c;
    forall i | 0 <= i < |s| && s[i].Send?
      ensures s[i].msg == Apology ||
        (taskCreated && outcome.Success? && 3 <= i < 3 + |Planned(outcome.output)| &&
         s[i].msg == Planned(outcome.output)[i - 3])
    {
      Concat3At(o, m, c, i);
      if |o| <= i < |o| + |m| {
        assert taskCreated && outcome.Success?;
        assert s[i].msg == d[i - 3];
      }
    }
  }

  /** The search notice (lines 89-93) is sent at most once, before every reply
      text, and only when the output holds a `web_search_call`; when it does and
      the notice's `reply_text` call goes through, it is the first message sent. */
  lemma HandleNotice(stored: Option<string>, text: string, taskCreated: bool,
                     outcome: Outcome, fails: set<nat>)
    ensures var s := HandleSteps(stored, text, taskCreated, outcome, fails);
      (forall i, j :: (0 <= i < |s| && 0 <= j < |s| &&
         s[i] == Send(SearchNotice) && s[j] == Send(SearchNotice)) ==> i == j) &&
      (forall i, j :: (0 <= i < |s| && 0 <= j < |s| &&
         s[i] == Send(SearchNotice) && s[j].Send? && s[j].msg.Text?) ==> i < j) &&
      (forall i :: 0 <= i < |s| && s[i] == Send(SearchNotice) ==>
         taskCreated && outcome.Success? && outcome.output.Some? && HasWebSearch(outcome.output.value)) &&
      (taskCreated && outcome.Success? && outcome.output.Some? &&
       HasWebSearch(outcome.output.value) && 0 !in fails ==>
         |s| > 3 && s[3] == Send(SearchNotice) &&
         |Delivered(s)| > 0 && Delivered(s)[0] == SearchNotice)
  {
    NoticePosition(stored, text, taskCreated, outcome, fails);
    HandleSendsAt(stored, text, taskCreated, outcome, fails);
    if taskCreated && outcome.Success? && outcome.output.Some? &&
       HasWebSearch(outcome.output.value) && 0 !in fails {
      NoticeFirst(stored, text, outcome, fails);
    }
  }

  /** A sent search notice sits right after the stored id, and only when the
      output holds a `web_search_call`. */
  lemma NoticePosition(stored: Option<string>, text: string, taskCreated: bool,
                       outcome: Outcome, fails: set<nat>)
    ensures var s := HandleSteps(stored, text, taskCreated, outcome, fails);
      forall i :: 0 <= i < |s| && s[i] == Send(SearchNotice) ==>
        i == 3 && taskCreated && outcome.Success? && outcome.output.Some? &&
        HasWebSearch(outcome.output.value)
  {
    HandleSendsAt(stored, text, taskCreated, outcome, fails);
  }

  /** With a `web_search_call` and a notice call that goes through, the notice is
      the first message. */
  lemma NoticeFirst(stored: Option<string>, text: string, outcome: Outcome, fails: set<nat>)
    requires outcome.Success? && outcome.output.Some? && HasWebSearch(outcome.output.value)
    requires 0 !in fails
    ensures var s := HandleSteps(stored, text, true, outcome, fails);
      |s| > 3 && s[3] == Send(SearchNotice) &&
      |Delivered(s)| > 0 && Delivered(s)[0] == SearchNotice
  {
    var plan := Planned(outcome.output);
    assert OkPrefix(|plan|, fails) > 0;
    HandleDelivered(stored, text, true, outcome, fails);
    var s := HandleSteps(stored, text, true, outcome, fails);
    assert s[3] == Sends(Tried(true, outcome, fails))[0];
  }

  /** The messages one call delivers: the planned replies up to the first
      `reply_text` call that raises, then the apology exactly when the try block
      raised and the apology itself went through. */
  lemma HandleDelivered(stored: Option<string>, text: string, taskCreated: bool,
                        outcome: Outcome, fails: set<nat>)
    ensures var plan := if taskCreated && outcome.Success? then Planned(outcome.output) else [];
      Delivered(HandleSteps(stored, text, taskCreated, outcome, fails)) ==
        plan[..OkPrefix(|plan|, fails)] +
        (if Raises(taskCreated, outcome, fails) && !Escapes(taskCreated, outcome, fails)
         then [Apology] else [])
  {
    DeliveredParts(stored, text, taskCreated, outcome, fails);
  }

  /** The messages one call delivers: those of the try block, then those of its end. */
  lemma DeliveredParts(stored: Option<string>, text: string, taskCreated: bool,
                       outcome: Outcome, fails: set<nat>)
    ensures Delivered(HandleSteps(stored, text, taskCreated, outcome, fails)) ==
      Tried(taskCreated, outcome, fails) +
      (if Raises(taskCreated, outcome, fails) && !Escapes(taskCreated, outcome, fails)
       then [Apology] else [])
  {
    DeliveredLayout(Opening(stored, text, taskCreated, outcome), Tried(taskCreated, outcome, fails),
                    Closing(taskCreated, outcome, fails));
    ClosingDelivered(taskCreated, outcome, fails);
  }

  /** When none of the planned `reply_text` calls raises, every planned reply is
      delivered, in order, and nothing else. */
  lemma HandleAllDelivered(stored: Option<string>, text: string, outcome: Outcome, fails: set<nat>)
    requires outcome.Success?
    requires forall o :: 0 <= o < |Planned(outcome.output)| ==> o !in fails
    ensures Delivered(HandleSteps(stored, text, true, outcome, fails)) == Planned(outcome.output)
    ensures !Escapes(true, outcome, fails)
  {
    var plan := Planned(outcome.output);
    OkPrefixIs(|plan|, fails, |plan|);
    HandleDelivered(stored, text, true, outcome, fails);
    assert plan[..|plan|] == plan;
  }

  /** The apology is sent at most once, as the last message, and exactly when the
      try block raised and the apology's own `reply_text` call went through. */
  lemma HandleApology(stored: Option<string>, text: string, taskCreated: bool,
                      outcome: Outcome, fails: set<nat>)
    ensures var d := Delivered(HandleSteps(stored, text, taskCreated, outcome, fails));
      (forall m :: 0 <= m < |d| && d[m] == Apology ==> m == |d| - 1) &&
      (Apology in d <==> Raises(taskCreated, outcome, fails) && !Escapes(taskCreated, outcome, fails))
  {
    DeliveredParts(stored, text, taskCreated, outcome, fails);
    ApologyOnlyLast(Tried(taskCreated, outcome, fails),
                    Raises(taskCreated, outcome, fails) && !Escapes(taskCreated, outcome, fails));
  }

  /** Messages without the apology, then the apology if `b`. */
  lemma ApologyOnlyLast(p: seq<Outgoing>, b: bool)
    requires forall i :: 0 <= i < |p| ==> p[i] != Apology
    ensures var d := p + (if b then [Apology] else []);
      (forall m :: 0 <= m < |d| && d[m] == Apology ==> m == |d| - 1) && (Apology in d <==> b)
  {
    var d := p + (if b then [Apology] else []);
    if b {
      assert d[|p|] == Apology;
    }
  }

  /** If `create_task` or `responses.create` raises, nothing is stored and the only
      message is the fixed apology, sent once unless its own `reply_text` raises. */
  lemma HandleFailure(t: seq<Action>, stored: Option<string>, text: string, taskCreated: bool,
                      outcome: Outcome, fails: set<nat>)
    requires !taskCreated || outcome.Failure?
    ensures var s := HandleSteps(stored, text, taskCreated, outcome, fails);
      StoredBy(t + s) == StoredBy(t) &&
      Delivered(s) == (if 0 in fails then [] else [Apology]) &&
      Escapes(taskCreated, outcome, fails) == (0 in fails)
  {
    HandleStoredId(t, stored, text, taskCreated, outcome, fails);
    HandleDelivered(stored, text, taskCreated, outcome, fails);
  }

  /** The typing task, when it was created, is cancelled exactly once, as the last
      action of the call, after every reply; it is left running only when the
      apology's `reply_text` call raised and the exception left the handler. */
  lemma HandleCancel(stored: Option<string>, text: string, taskCreated: bool,
                     outcome: Outcome, fails: set<nat>)
    ensures var s := HandleSteps(stored, text, taskCreated, outcome, fails);
      (CancelTyping in s <==> taskCreated && !Escapes(taskCreated, outcome, fails)) &&
      (forall i :: 0 <= i < |s| && s[i] == CancelTyping ==> i == |s| - 1)
  {
    var o := Opening(stored, text, taskCreated, outcome);
    var c := Closing(taskCreated, outcome, fails);
    SilentThenSends(o, Tried(taskCreated, outcome, fails));
    CancelLast(o + Sends(Tried(taskCreated, outcome, fails)), c);
    ClosingCancel(taskCreated, outcome, fails);
  }

  /** An opening followed by sends holds no cancel. */
  lemma SilentThenSends(o: seq<Action>, msgs: seq<Outgoing>)
    requires forall i :: 0 <= i < |o| ==> o[i] != CancelTyping
    ensures forall i :: 0 <= i < |o + Sends(msgs)| ==> (o + Sends(msgs))[i] != CancelTyping
  {
    var u := o + Sends(msgs);
    forall i | 0 <= i < |u| ensures u[i] != CancelTyping {
      if i >= |o| {
        assert u[i] == Sends(msgs)[i - |o|];
      }
    }
  }

  /** A cancel that can only come last in `c` comes last in `pre + c`, and only
      from `c`, when `pre` holds none. */
  lemma CancelLast(pre: seq<Action>, c: seq<Action>)
    requires forall i :: 0 <= i < |pre| ==> pre[i] != CancelTyping
    requires forall i :: 0 <= i < |c| && c[i] == CancelTyping ==> i == |c| - 1
    ensures CancelTyping in pre + c <==> CancelTyping in c
    ensures forall i :: 0 <= i < |pre + c| && (pre + c)[i] == CancelTyping ==> i == |pre + c| - 1
  {
    var s := pre + c;
    forall i | 0 <= i < |s| && s[i] == CancelTyping ensures i == |s| - 1 && c[i - |pre|] == CancelTyping {
      assert s[i] == c[i - |pre|];
    }
    if CancelTyping in c {
      var i :| 0 <= i < |c| && c[i] == CancelTyping;
      assert s[|pre| + i] == CancelTyping;
    }
  }

  /** A response with no output (None or empty) sends nothing, yet its id is still
      stored and the typing task cancelled. */
  lemma HandleEmptyOutput(stored: Option<string>, text: string, outcome: Outcome, fails: set<nat>)
    requires outcome.Success? && (outcome.output.None? || outcome.output == Some([]))
    ensures HandleSteps(stored, text, true, outcome, fails) ==
      [StartTyping, Create(Request(text, stored)), Store(outcome.id), CancelTyping]
    ensures !Escapes(true, outcome, fails)
  {
    assert Sends(Tried(true, outcome, fails)) == [];
  }

  /** The first turn after /start: "Hello" is answered by response R1 with one text.
      The request carries no previous id, the text is relayed and R1 is stored. */
  lemma HelloTurn(t: seq<Action>)
    requires StoredBy(t) == None
    ensures var r1 := Success("R1", Some([Message([OutputText("Hi there!")])]));
      var s := HandleSteps(StoredBy(t), "Hello", true, r1, {});
      |s| > 1 && s[1] == Create(Request("Hello", None)) &&
      Delivered(s) == [Text("Hi there!")] && StoredBy(t + s) == Some("R1")
  {
    var items := [Message([OutputText("Hi there!")])];
    var r1 := Success("R1", Some(items));
    assert TextReplies(items[1..]) == [];
    assert Planned(Some(items)) == [Text("Hi there!")];
    HandleRequest(None, "Hello", true, r1, {});
    HandleAllDelivered(None, "Hello", r1, {});
    HandleStoredId(t, None, "Hello", true, r1, {});
  }

  /** The next turn: "What's new?" is answered by R2 with a search call before one
      text. The request carries R1, the notice comes before the text and R2 is stored. */
  lemma NewsTurn(t: seq<Action>)
    requires StoredBy(t) == Some("R1")
    ensures var r2 := Success("R2", Some([WebSearchCall, Message([OutputText("Here's the latest")])]));
      var s := HandleSteps(StoredBy(t), "What's new?", true, r2, {});
      |s| > 1 && s[1] == Create(Request("What's new?", Some("R1"))) &&
      Delivered(s) == [SearchNotice, Text("Here's the latest")] && StoredBy(t + s) == Some("R2")
  {
    var items := [WebSearchCall, Message([OutputText("Here's the latest")])];
    var r2 := Success("R2", Some(items));
    assert items[0].WebSearchCall?;
    assert TextReplies(items[1..]) == [Text("Here's the latest")] by {
      assert items[1..][1..] == [];
    }
    assert Planned(Some(items)) == [SearchNotice, Text("Here's the latest")];
    HandleRequest(Some("R1"), "What's new?", true, r2, {});
    HandleAllDelivered(Some("R1"), "What's new?", r2, {});
    HandleStoredId(t, Some("R1"), "What's new?", true, r2, {});
  }

  /** The two turns one after the other, after a /start. */
  lemma TwoTurns(p: seq<Action>)
    ensures var t0 := p + [Reset];
      var r1 := Success("R1", Some([Message([OutputText("Hi there!")])]));
      var s1 := HandleSteps(StoredBy(t0), "Hello", true, r1, {});
      var r2 := Success("R2", Some([WebSearchCall, Message([OutputText("Here's the latest")])]));
      var s2 := HandleSteps(StoredBy(t0 + s1), "What's new?", true, r2, {});
      Delivered(s1 + s2) == [Text("Hi there!"), SearchNotice, Text("Here's the latest")] &&
      StoredBy(t0 + s1 + s2) == Some("R2")
  {
    var t0 := p + [Reset];
    assert StoredBy(t0) == None;
    HelloTurn(t0);
    var s1 := HandleSteps(None, "Hello", true, Success("R1", Some([Message([OutputText("Hi there!")])])), {});
    NewsTurn(t0 + s1);
    var s2 := HandleSteps(Some("R1"), "What's new?", true,
                          Success("R2", Some([WebSearchCall, Message([OutputText("Here's the latest")])])), {});
    DeliveredAppend(s1, s2);
  }

  /** A turn whose request fails: the typing task starts, the request is issued with
      the stored id, the apology is sent once and the typing task is cancelled once; the
      stored id is kept. */
  lemma FailedTurn(t: seq<Action>, text: string)
    ensures var s := HandleSteps(StoredBy(t), text, true, Failure, {});
      s == [StartTyping, Create(Request(text, StoredBy(t))), Send(Apology), CancelTyping] &&
      Delivered(s) == [Apology] && StoredBy(t + s) == StoredBy(t)
  {
    FailureLayout(StoredBy(t), text, true, Failure, {});
    HandleFailure(t, StoredBy(t), text, true, Failure, {});
  }

  /** A relay of the messages `msgs` as `reply_text` calls numbered from `from`
      delivered `sent` and made `attempts` calls: the calls that went through
      delivered a prefix of `msgs`, and either all of `msgs` went through or the
      next call raised. */
  ghost predicate Relayed(msgs: seq<Outgoing>, sent: seq<Outgoing>, from: nat, attempts: nat,
                          raised: bool, fails: set<nat>)
  {
    sent <= msgs &&
    (forall o :: from <= o < from + |sent| ==> o !in fails) &&
    if raised then |sent| < |msgs| && from + |sent| in fails && attempts == from + |sent| + 1
    else sent == msgs && attempts == from + |sent|
  }

  lemma SendsAppend(a: seq<Outgoing>, b: seq<Outgoing>)
    ensures Sends(a + b) == Sends(a) + Sends(b)
  {
    assert |Sends(a + b)| == |Sends(a) + Sends(b)|;
    forall k | 0 <= k < |a + b| ensures Sends(a + b)[k] == (Sends(a) + Sends(b))[k] {
      if k >= |a| {
        assert (a + b)[k] == b[k - |a|];
      }
    }
  }

  /** A relay of `before` followed by one that raised inside `mid` is a relay of
      `before + mid + after` that raised. */
  lemma RelayedWithin(before: seq<Outgoing>, mid: seq<Outgoing>, after: seq<Outgoing>,
                      more: seq<Outgoing>, from: nat, attempts: nat, fails: set<nat>)
    requires forall o :: from <= o < from + |before| ==> o !in fails
    requires Relayed(mid, more, from + |before|, attempts, true, fails)
    ensures Relayed(before + mid + after, before + more, from, attempts, true, fails)
  {
    var m := |before| + |more|;
    assert mid[..|more|] == more;
    assert (before + mid + after)[..m] == before + more;
  }

  /** The loop of lines 99-101 after part `j`: the replies of the parts before `j`
      went through, all of them as calls numbered from `from`. */
  ghost predicate PartsRelayed(content: seq<ContentPart>, j: nat, sent: seq<Outgoing>, from: nat,
                               attempts: nat, fails: set<nat>)
  {
    j <= |content| && sent == PartReplies(content[..j]) && attempts == from + |sent| &&
    forall o :: from <= o < from + |sent| ==> o !in fails
  }

  /** Part `j` handled without a raise extends the relay by its reply. */
  lemma PartsNext(content: seq<ContentPart>, j: nat, sent: seq<Outgoing>, from: nat, fails: set<nat>)
    requires j < |content| && PartsRelayed(content, j, sent, from, from + |sent|, fails)
    requires content[j].OutputText? ==> from + |sent| !in fails
    ensures var next := sent + PartReply(content[j]);
      PartsRelayed(content, j + 1, next, from, from + |next|, fails)
  {
    PartRepliesAppend(content[..j], [content[j]]);
    TakeNext(content, j);
    assert PartReplies([content[j]]) == PartReply(content[j]) + PartReplies([]);
  }

  /** When the reply for text part `j` raises, what went through is a proper prefix
      of the message's replies, and the relay raised. */
  lemma PartRepliesRaised(content: seq<ContentPart>, j: nat, from: nat, sent: seq<Outgoing>,
                          fails: set<nat>)
    requires j < |content| && content[j].OutputText?
    requires PartsRelayed(content, j, sent, from, from + |sent|, fails)
    requires from + |sent| in fails
    ensures Relayed(PartReplies(content), sent, from, from + |sent| + 1, true, fails)
  {
    PartRepliesSplit(content, j);
    PrefixOfConcat(sent, [Text(content[j].text)], PartReplies(content[j + 1..]));
  }

  /** The loop of lines 96-101 before item `i`: the reply texts of the items
      before `i` went through, all of them as calls numbered from `from`. */
  ghost predicate TextsRelayed(items: seq<OutputItem>, i: nat, sent: seq<Outgoing>, from: nat,
                               attempts: nat, fails: set<nat>)
  {
    i <= |items| && sent == TextReplies(items[..i]) && attempts == from + |sent| &&
    forall o :: from <= o < from + |sent| ==> o !in fails
  }

  /** An item that is not a message with content adds no reply text. */
  lemma RelayTextsSkip(items: seq<OutputItem>, i: nat, sent: seq<Outgoing>, from: nat,
                       attempts: nat, fails: set<nat>)
    requires i < |items| && !(items[i].Message? && |items[i].content| > 0)
    requires TextsRelayed(items, i, sent, from, attempts, fails)
    ensures TextsRelayed(items, i + 1, sent, from, attempts, fails)
  {
    TextRepliesAppend(items[..i], [items[i]]);
    TakeNext(items, i);
    assert TextReplies([items[i]]) == ItemReplies(items[i]) + TextReplies([]);
  }

  /** After the replies of the items before `i` went through, a relay of the parts
      of message `i` that raised is a relay of all the reply texts that raised. */
  lemma RelayTextsRaised(items: seq<OutputItem>, i: nat, before: seq<Outgoing>, more: seq<Outgoing>,
                         from: nat, start: nat, attempts: nat, fails: set<nat>)
    requires i < |items| && items[i].Message?
    requires TextsRelayed(items, i, before, from, start, fails)
    requires Relayed(PartReplies(items[i].content), more, start, attempts, true, fails)
    ensures Relayed(TextReplies(items), before + more, from, attempts, true, fails)
  {
    var mid := ItemReplies(items[i]);
    assert mid == PartReplies(items[i].content);
    assert start == from + |before|;
    RelayedWithin(before, mid, TextReplies(items[i + 1..]), more, from, attempts, fails);
    TextRepliesSplit(items, i);
  }

  /** After the replies of the items before `i` went through, a relay of the parts
      of message `i` that did not raise completes the replies of the items up to `i`. */
  lemma RelayTextsDone(items: seq<OutputItem>, i: nat, before: seq<Outgoing>, more: seq<Outgoing>,
                       from: nat, start: nat, attempts: nat, fails: set<nat>)
    requires i < |items| && items[i].Message?
    requires TextsRelayed(items, i, before, from, start, fails)
    requires Relayed(PartReplies(items[i].content), more, start, attempts, false, fails)
    ensures TextsRelayed(items, i + 1, before + more, from, attempts, fails)
  {
    assert ItemReplies(items[i]) == PartReplies(items[i].content);
    TextRepliesAppend(items[..i], [items[i]]);
    TakeNext(items, i);
    assert TextReplies([items[i]]) == ItemReplies(items[i]) + TextReplies([]);
  }

  /** The loop of lines 96-101 that went through every item relayed all reply texts. */
  lemma RelayTextsAll(items: seq<OutputItem>, sent: seq<Outgoing>, from: nat, attempts: nat,
                      fails: set<nat>)
    requires TextsRelayed(items, |items|, sent, from, attempts, fails)
    ensures Relayed(TextReplies(items), sent, from, attempts, false, fails)
  {
    assert items[..|items|] == items;
  }

  /** Two relays one after the other form a relay of the concatenation. */
  lemma RelayedConcat(a: seq<Outgoing>, b: seq<Outgoing>, sa: seq<Outgoing>, sb: seq<Outgoing>,
                      attempts: nat, raised: bool, fails: set<nat>)
    requires Relayed(a, sa, 0, |sa|, false, fails)
    requires Relayed(b, sb, |sa|, attempts, raised, fails)
    ensures Relayed(a + b, sa + sb, 0, attempts, raised, fails)
  {
    assert sa == a;
    assert (a + b)[..|a| + |sb|] == a + sb;
  }

  /** A relay that raised inside `a` is a relay of `a + b` that raised. */
  lemma RelayedRaisedConcat(a: seq<Outgoing>, b: seq<Outgoing>, sa: seq<Outgoing>,
                            attempts: nat, fails: set<nat>)
    requires Relayed(a, sa, 0, attempts, true, fails)
    ensures Relayed(a + b, sa, 0, attempts, true, fails)
  {
    assert (a + b)[..|sa|] == a[..|sa|];
  }

  /** A relay from call 0 delivers exactly the planned messages before the first
      call that raises. */
  lemma RelayedOkPrefix(plan: seq<Outgoing>, sent: seq<Outgoing>, attempts: nat, raised: bool,
                        fails: set<nat>)
    requires Relayed(plan, sent, 0, attempts, raised, fails)
    ensures var k := OkPrefix(|plan|, fails);
      sent == plan[..k] && raised == (k < |plan|) && attempts == (if raised then k + 1 else k)
  {
    OkPrefixIs(|plan|, fails, |sent|);
  }

  /** One chat as the handlers see it: `context.chat_data['last_response_id']` and
      everything the handlers have done for the chat so far. */
  class Chat {
    var lastResponseId: Option<string>
    var trace: seq<Action>

    /** The stored id is the one the trace last wrote, and every request so far
        carried the id stored when it was issued. */
    ghost predicate Valid()
      reads this
    {
      lastResponseId == StoredBy(trace) && Continues(trace)
    }

    /** A chat the bot has not seen yet: `chat_data` is empty, so `get` yields None. */
    constructor ()
      ensures Valid() && lastResponseId == None && trace == []
    {
      lastResponseId := None;
      trace := [];
    }

    /** `update.message.reply_text(msg)`, the `ordinal`-th such call of the current
        handler; it raises exactly when `ordinal` is in `fails`. */
    method ReplyText(msg: Outgoing, ordinal: nat, fails: set<nat>) returns (ok: bool)
      modifies this`trace
      ensures ok == (ordinal !in fails)
      ensures trace == old(trace) + (if ok then [Send(msg)] else [])
    {
      ok := ordinal !in fails;
      if ok {
        trace := trace + [Send(msg)];
      }
    }

    /** The /start command (lines 29-35): forget the conversation, then greet. If the
        greeting raises, the exception leaves the handler; the reset stands. */
    method Start(fails: set<nat>) returns (escaped: bool)
      requires Valid()
      modifies this
      ensures Valid()
      ensures lastResponseId == None
      ensures trace == old(trace) + [Reset] + (if 0 in fails then [] else [Send(Greeting)])
      ensures escaped == (0 in fails)
    {
      lastResponseId := None;
      trace := trace + [Reset];
      ghost var reset := trace;
      var ok := ReplyText(Greeting, 0, fails);
      escaped := !ok;
      ghost var greeted: seq<Action> := if ok then [Send(Greeting)] else [];
      assert trace == reset + greeted;
      StoredByNoStore(reset, greeted);
      ContinuesAppend(old(trace), [Reset] + greeted);
      assert trace == old(trace) + ([Reset] + greeted);
    }

    /** Lines 89-93: the first `web_search_call` item, if any, triggers the search
        notice as `reply_text` call number 0, and the loop stops there. */
    method RelaySearchNotice(items: seq<OutputItem>, fails: set<nat>)
      returns (attempts: nat, raised: bool, ghost sent: seq<Outgoing>)
      modifies this`trace
      ensures trace == old(trace) + Sends(sent)
      ensures Relayed(if HasWebSearch(items) then [SearchNotice] else [], sent, 0, attempts, raised, fails)
    {
      attempts, raised, sent := 0, false, [];
      HasWebSearchAt(items);
      var i := 0;
      while i < |items|
        invariant 0 <= i <= |items|
        invariant forall k :: 0 <= k < i ==> !items[k].WebSearchCall?
        invariant attempts == 0 && !raised && sent == [] && trace == old(trace)
      {
        if items[i].WebSearchCall? {
          var ok := ReplyText(SearchNotice, attempts, fails);
          attempts := attempts + 1;
          if ok {
            sent := [SearchNotice];
          } else {
            raised := true;
          }
          break;
        }
        i := i + 1;
      }
    }

    /** Lines 99-101: one reply per `output_text` part of one message, as `reply_text`
        calls numbered from `from`; the first call that raises ends the relay. */
    method RelayParts(content: seq<ContentPart>, from: nat, fails: set<nat>)
      returns (attempts: nat, raised: bool, ghost sent: seq<Outgoing>)
      modifies this`trace
      ensures trace == old(trace) + Sends(sent)
      ensures Relayed(PartReplies(content), sent, from, attempts, raised, fails)
    {
      attempts, raised, sent := from, false, [];
      for j := 0 to |content|
        invariant trace == old(trace) + Sends(sent)
        invariant PartsRelayed(content, j, sent, from, attempts, fails)
      {
        if content[j].OutputText? {
          var ok := ReplyText(Text(content[j].text), attempts, fails);
          attempts := attempts + 1;
          if !ok {
            raised := true;
            PartRepliesRaised(content, j, from, sent, fails);
            return;
          }
        }
        PartsNext(content, j, sent, from, fails);
        TraceReply(old(trace), sent, content[j]);
        sent := sent + PartReply(content[j]);
      }
      assert content[..|content|] == content;
    }

    /** Lines 96-101: the reply texts of every `message` item with content, as
        `reply_text` calls numbered from `from`; the first call that raises ends it. */
    method RelayTexts(items: seq<OutputItem>, from: nat, fails: set<nat>)
      returns (attempts: nat, raised: bool, ghost sent: seq<Outgoing>)
      modifies this`trace
      ensures trace == old(trace) + Sends(sent)
      ensures Relayed(TextReplies(items), sent, from, attempts, raised, fails)
    {
      attempts, raised, sent := from, false, [];
      for i := 0 to |items|
        invariant trace == old(trace) + Sends(sent)
        invariant TextsRelayed(items, i, sent, from, attempts, fails)
      {
        if items[i].Message? && |items[i].content| > 0 {
          ghost var more;
          ghost var before, start := sent, attempts;
          attempts, raised, more := RelayParts(items[i].content, attempts, fails);
          TraceSends(old(trace), sent, more);
          sent := sent + more;
          if raised {
            RelayTextsRaised(items, i, before, more, from, start, attempts, fails);
            return;
          }
          RelayTextsDone(items, i, before, more, from, start, attempts, fails);
        } else {
          RelayTextsSkip(items, i, sent, from, attempts, fails);
        }
      }
      RelayTextsAll(items, sent, from, attempts, fails);
    }

    /** Lines 88-101 of `handle_message`: the search notice, then the reply texts,
        each its own `reply_text` call, numbered from 0; the first call that raises
        ends the relay. */
    method RelayOutput(output: Option<seq<OutputItem>>, fails: set<nat>)
      returns (attempts: nat, raised: bool, ghost sent: seq<Outgoing>)
      modifies this`trace
      ensures trace == old(trace) + Sends(sent)
      ensures Relayed(Planned(output), sent, 0, attempts, raised, fails)
    {
      attempts, raised, sent := 0, false, [];
      if output.Some? && |output.value| > 0 {
        var items := output.value;
        ghost var notice := if HasWebSearch(items) then [SearchNotice] else [];
        assert Planned(output) == notice + TextReplies(items);
        attempts, raised, sent := RelaySearchNotice(items, fails);
        if !raised {
          ghost var more;
          attempts, raised, more := RelayTexts(items, attempts, fails);
          TraceSends(old(trace), sent, more);
          assert Relayed(notice + TextReplies(items), sent + more, 0, attempts, raised, fails) by {
            RelayedConcat(notice, TextReplies(items), sent, more, attempts, raised, fails);
          }
          sent := sent + more;
        } else {
          RelayedRaisedConcat(notice, TextReplies(items), sent, attempts, fails);
        }
      }
    }

    /** The except clause of `handle_message` (lines 106-113): the apology, as
        `reply_text` call number `at`, then the cancel if the typing task exists.
        If the apology raises, the exception leaves the handler. */
    method Apologize(at: nat, fails: set<nat>, typing: bool) returns (escaped: bool)
      modifies this`trace
      ensures trace == old(trace) + Recover(at, fails, typing)
      ensures escaped == (at in fails)
    {
      var ok := ReplyText(Apology, at, fails);
      escaped := !ok;
      if ok && typing {
        trace := trace + [CancelTyping];
      }
    }

    /** `handle_message` (lines 49-113) for a message `text`; `taskCreated` says whether
        `create_task` succeeded, `outcome` what `responses.create` did, and `fails`
        which of this call's `reply_text` calls raise. `escaped` is true when an
        exception leaves the handler. */
    method HandleMessage(text: string, taskCreated: bool, outcome: Outcome, fails: set<nat>)
      returns (escaped: bool)
      requires Valid()
      modifies this
      ensures Valid()
      ensures trace == old(trace) + HandleSteps(old(lastResponseId), text, taskCreated, outcome, fails)
      ensures lastResponseId == if taskCreated && outcome.Success? then Some(outcome.id) else old(lastResponseId)
      ensures escaped == Escapes(taskCreated, outcome, fails)
    {
      ghost var t0, stored := trace, lastResponseId;
      if !taskCreated {
        escaped := Apologize(0, fails, false);
        FailureLayout(stored, text, taskCreated, outcome, fails);
        assert trace == t0 + HandleSteps(stored, text, taskCreated, outcome, fails);
      } else {
        trace := trace + [StartTyping];
        var request := Request(text, lastResponseId);
        trace := trace + [Create(request)];
        if outcome.Failure? {
          escaped := Apologize(0, fails, true);
          FailureLayout(stored, text, taskCreated, outcome, fails);
          assert trace == t0 + HandleSteps(stored, text, taskCreated, outcome, fails);
        } else {
          lastResponseId := Some(outcome.id);
          trace := trace + [Store(outcome.id)];
          ghost var t2 := trace;
          var attempts, raised, sent := RelayOutput(outcome.output, fails);
          RelayedOkPrefix(Planned(outcome.output), sent, attempts, raised, fails);
          ghost var t3 := trace;
          if raised {
            escaped := Apologize(attempts, fails, true);
          } else {
            // Line 104.
            trace := trace + [CancelTyping];
            escaped := false;
          }
          SuccessLayout(stored, text, outcome, fails);
          ghost var plan := Planned(outcome.output);
          ghost var k := OkPrefix(|plan|, fails);
          ghost var tail := if k == |plan| then [CancelTyping] else Recover(k + 1, fails, true);
          assert trace == t3 + tail;
          ghost var pre := [StartTyping, Create(request), Store(outcome.id)];
          assert t2 == t0 + pre by {
            Snoc3(t0, StartTyping, Create(request), Store(outcome.id));
          }
          assert escaped == Escapes(taskCreated, outcome, fails);
          assert t3 == t2 + Sends(plan[..k]);
          assert HandleSteps(stored, text, taskCreated, outcome, fails) == pre + Sends(plan[..k]) + tail;
          Assoc4(t0, pre, Sends(plan[..k]), tail);
          assert trace == t0 + HandleSteps(stored, text, taskCreated, outcome, fails);
        }
      }
      HandleStoredId(t0, stored, text, taskCreated, outcome, fails);
      HandleContinues(t0, text, taskCreated, outcome, fails);
    }
  }
}
