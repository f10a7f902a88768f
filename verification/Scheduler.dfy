/**
  Continuous batching (src/scheduler.cpp).  Token counts and ids are unbounded numbers.
 */
module Scheduling {
  import opened Wrappers

  datatype Phase = Prefill | Decode | Finished

  datatype Request = Request(id: nat, prompt: nat, total: nat, generated: nat, phase: Phase) {
    /** What never changes after submission. */
    function Key(): (nat, nat, nat) { (id, prompt, total) }

    /** What complete does to one request. */
    function Advance(completed: nat, tokens: nat): Request {
      if id != completed then this
      else if generated + tokens + prompt >= total then this.(generated := generated + tokens, phase := Finished)
      else this.(generated := generated + tokens, phase := Decode)
    }

    /** Rounds the request can still take at one token a round. */
    function Weight(): (r: nat)
      ensures r >= 1
    {
      if prompt + generated + 1 < total then total - prompt - generated else 1
    }
  }

  datatype Batch = Batch(ids: seq<nat>, phase: Phase, tokens: nat)

  // ---------- filters and maps over request lists ----------

  function WithoutId(s: seq<Request>, id: nat): seq<Request> {
    if s == [] then [] else (if s[0].id == id then [] else [s[0]]) + WithoutId(s[1..], id)
  }

  function WithoutFinished(s: seq<Request>): seq<Request> {
    if s == [] then [] else (if s[0].phase == Finished then [] else [s[0]]) + WithoutFinished(s[1..])
  }

  function InPhase(s: seq<Request>, phase: Phase): seq<Request> {
    if s == [] then [] else (if s[0].phase == phase then [s[0]] else []) + InPhase(s[1..], phase)
  }

  function Ids(s: seq<Request>): seq<nat> {
    if s == [] then [] else [s[0].id] + Ids(s[1..])
  }

  function Keys(s: seq<Request>): (r: seq<(nat, nat, nat)>)
    ensures |r| == |s|
  {
    if s == [] then [] else [s[0].Key()] + Keys(s[1..])
  }

  function Prompts(s: seq<Request>): nat {
    if s == [] then 0 else s[0].prompt + Prompts(s[1..])
  }

  function AdvanceAll(s: seq<Request>, id: nat, tokens: nat): (r: seq<Request>)
    ensures |r| == |s|
  {
    if s == [] then [] else [s[0].Advance(id, tokens)] + AdvanceAll(s[1..], id, tokens)
  }

  /** The batch contract: the active requests of the front's phase, with the matching token total. */
  function BatchOf(active: seq<Request>): Batch {
    if active == [] then Batch([], Decode, 0)
    else
      var phase := active[0].phase;
      var chosen := InPhase(active, phase);
      Batch(Ids(chosen), phase, if phase == Prefill then Prompts(chosen) else |chosen|)
  }

  // ---------- subsequences ----------

  /** a is b with some elements left out. */
  ghost predicate Subseq<T>(a: seq<T>, b: seq<T>)
    decreases |b|
  {
    a == [] || (b != [] && ((a[0] == b[0] && Subseq(a[1..], b[1..])) || Subseq(a, b[1..])))
  }

  lemma {:induction false} SubseqRefl<T>(a: seq<T>)
    ensures Subseq(a, a)
    decreases |a|
  {
    if a != [] { SubseqRefl(a[1..]); }
  }

  lemma {:induction false} SubseqAppend<T>(a: seq<T>, b: seq<T>, x: T)
    requires Subseq(a, b)
    ensures Subseq(a + [x], b + [x])
    decreases |b|
  {
    if b == [] {
      SubseqRefl([x]);
      assert a + [x] == [x] && b + [x] == [x];
    } else {
      assert (b + [x])[1..] == b[1..] + [x];
      if a != [] && a[0] == b[0] && Subseq(a[1..], b[1..]) {
        SubseqAppend(a[1..], b[1..], x);
        assert (a + [x])[1..] == a[1..] + [x];
      } else {
        SubseqAppend(a, b[1..], x);
      }
    }
  }

  lemma {:induction false} SubseqTrans<T>(a: seq<T>, b: seq<T>, c: seq<T>)
    requires Subseq(a, b) && Subseq(b, c)
    ensures Subseq(a, c)
    decreases |c|
  {
    if a != [] {
      if b[0] == c[0] && Subseq(b[1..], c[1..]) {
        if a[0] == b[0] && Subseq(a[1..], b[1..]) {
          SubseqTrans(a[1..], b[1..], c[1..]);
        } else {
          SubseqTrans(a, b[1..], c[1..]);
        }
      } else {
        SubseqTrans(a, b, c[1..]);
      }
    }
  }

  lemma {:induction false} SubseqPrefix<T>(p: seq<T>, a: seq<T>, b: seq<T>)
    requires Subseq(a, b)
    ensures Subseq(p + a, p + b)
    decreases |p|
  {
    if p == [] {
      assert p + a == a && p + b == b;
    } else {
      SubseqPrefix(p[1..], a, b);
      assert (p + a)[1..] == p[1..] + a && (p + b)[1..] == p[1..] + b;
    }
  }

  lemma {:induction false} SubseqSuffix<T>(a: seq<T>, b: seq<T>, p: seq<T>)
    requires Subseq(a, b)
    ensures Subseq(a + p, b + p)
    decreases |p|
  {
    if p == [] {
      assert a + p == a && b + p == b;
    } else {
      SubseqAppend(a, b, p[0]);
      SubseqSuffix(a + [p[0]], b + [p[0]], p[1..]);
      assert a + [p[0]] + p[1..] == a + p && b + [p[0]] + p[1..] == b + p;
    }
  }

  lemma {:induction false} KeysAppend(a: seq<Request>, b: seq<Request>)
    ensures Keys(a + b) == Keys(a) + Keys(b)
  {
    if a == [] {
      assert a + b == b;
    } else {
      KeysAppend(a[1..], b);
      TailOf(a, b);
      Assoc([a[0].Key()], Keys(a[1..]), Keys(b));
    }
  }

  lemma {:induction false} WithoutIdKeys(s: seq<Request>, id: nat)
    ensures Subseq(Keys(WithoutId(s, id)), Keys(s))
  {
    if s != [] {
      WithoutIdKeys(s[1..], id);
      if s[0].id != id {
        assert WithoutId(s, id)[1..] == WithoutId(s[1..], id);
      } else {
        assert WithoutId(s, id) == WithoutId(s[1..], id);
      }
    }
  }

  lemma {:induction false} WithoutFinishedKeys(s: seq<Request>)
    ensures Subseq(Keys(WithoutFinished(s)), Keys(s))
  {
    if s != [] {
      WithoutFinishedKeys(s[1..]);
      if s[0].phase != Finished {
        assert WithoutFinished(s)[1..] == WithoutFinished(s[1..]);
      } else {
        assert WithoutFinished(s) == WithoutFinished(s[1..]);
      }
    }
  }

  lemma {:induction false} AdvanceAllKeys(s: seq<Request>, id: nat, tokens: nat)
    ensures Keys(AdvanceAll(s, id, tokens)) == Keys(s)
  {
    if s != [] { AdvanceAllKeys(s[1..], id, tokens); }
  }

  // ---------- the state ----------

  datatype State = State(maxBatch: nat, queue: seq<Request>, active: seq<Request>) {
    function Submit(r: Request): State {
      this.(queue := queue + [r.(phase := Prefill)])
    }

    function Cancel(id: nat): State {
      this.(queue := WithoutId(queue, id), active := WithoutId(active, id))
    }

    /** How many queued requests next moves to the active list. */
    function Room(): (k: nat)
      ensures k <= |queue|
    {
      if |active| >= maxBatch then 0 else if |queue| < maxBatch - |active| then |queue| else maxBatch - |active|
    }

    function Admit(): State {
      this.(queue := queue[Room()..], active := active + queue[..Room()])
    }

    function Complete(id: nat, tokens: nat): State {
      this.(active := WithoutFinished(AdvanceAll(active, id, tokens)))
    }

    /** A decoding request still has tokens to produce; a queued one has not started. */
    ghost predicate Ok() {
      && 1 <= maxBatch && |active| <= maxBatch
      && (forall r :: r in queue ==> r.phase == Prefill)
      && (forall r :: r in active ==> r.phase != Finished && (r.phase == Decode ==> r.prompt + r.generated < r.total))
    }

    /** The active requests followed by the queued ones, in submission order. */
    ghost predicate InOrder(history: seq<Request>) {
      Subseq(Keys(active + queue), Keys(history))
    }
  }

  lemma {:induction false} WithoutIdMembers(s: seq<Request>, id: nat)
    ensures forall r :: r in WithoutId(s, id) <==> r in s && r.id != id
    ensures |WithoutId(s, id)| <= |s|
  {
    if s != [] {
      WithoutIdMembers(s[1..], id);
      assert s == [s[0]] + s[1..];
    }
  }

  lemma {:induction false} WithoutFinishedMembers(s: seq<Request>)
    ensures forall r :: r in WithoutFinished(s) <==> r in s && r.phase != Finished
    ensures |WithoutFinished(s)| <= |s|
  {
    if s != [] {
      WithoutFinishedMembers(s[1..]);
      assert s == [s[0]] + s[1..];
    }
  }

  lemma {:induction false} AdvanceAllMembers(s: seq<Request>, id: nat, tokens: nat, r: Request)
    requires r in AdvanceAll(s, id, tokens)
    ensures exists q :: q in s && r == q.Advance(id, tokens)
  {
    if r == s[0].Advance(id, tokens) {
      assert s[0] in s;
    } else {
      assert r in AdvanceAll(s[1..], id, tokens);
      AdvanceAllMembers(s[1..], id, tokens, r);
      var q :| q in s[1..] && r == q.Advance(id, tokens);
      assert q in s;
    }
  }

  lemma SubmitKeeps(s: State, history: seq<Request>, r: Request)
    requires s.Ok() && s.InOrder(history)
    ensures s.Submit(r).Ok() && s.Submit(r).InOrder(history + [r.(phase := Prefill)])
  {
    var q := r.(phase := Prefill);
    assert s.active + (s.queue + [q]) == (s.active + s.queue) + [q];
    KeysAppend(s.active + s.queue, [q]);
    KeysAppend(history, [q]);
    assert Keys([q]) == [q.Key()];
    SubseqAppend(Keys(s.active + s.queue), Keys(history), q.Key());
  }

  lemma CancelKeeps(s: State, history: seq<Request>, id: nat)
    requires s.Ok() && s.InOrder(history)
    ensures s.Cancel(id).Ok() && s.Cancel(id).InOrder(history)
    ensures forall r :: r in s.Cancel(id).active + s.Cancel(id).queue <==> r in s.active + s.queue && r.id != id
  {
    WithoutIdMembers(s.queue, id);
    WithoutIdMembers(s.active, id);
    var a, q := WithoutId(s.active, id), WithoutId(s.queue, id);
    WithoutIdKeys(s.active, id);
    WithoutIdKeys(s.queue, id);
    KeysAppend(s.active, s.queue);
    KeysAppend(a, q);
    SubseqPrefix(Keys(a), Keys(q), Keys(s.queue));
    SubseqSuffix(Keys(a), Keys(s.active), Keys(s.queue));
    SubseqTrans(Keys(a) + Keys(q), Keys(a) + Keys(s.queue), Keys(s.active) + Keys(s.queue));
    SubseqTrans(Keys(a + q), Keys(s.active + s.queue), Keys(history));
  }

  lemma AdmitKeeps(s: State, history: seq<Request>)
    requires s.Ok() && s.InOrder(history)
    ensures s.Admit().Ok() && s.Admit().InOrder(history)
    ensures s.Admit().active + s.Admit().queue == s.active + s.queue
    ensures s.active <= s.Admit().active && (s.Admit().queue == [] || |s.Admit().active| == s.maxBatch)
    ensures s.Admit().active == [] ==> s.queue == []
  {
    assert s.queue == s.queue[..s.Room()] + s.queue[s.Room()..];
    assert s.active + s.queue[..s.Room()] + s.queue[s.Room()..] == s.active + s.queue;
  }

  lemma CompleteKeeps(s: State, history: seq<Request>, id: nat, tokens: nat)
    requires s.Ok() && s.InOrder(history)
    ensures s.Complete(id, tokens).Ok() && s.Complete(id, tokens).InOrder(history)
  {
    var adv := AdvanceAll(s.active, id, tokens);
    var a := WithoutFinished(adv);
    WithoutFinishedMembers(adv);
    forall r | r in a ensures r.phase != Finished && (r.phase == Decode ==> r.prompt + r.generated < r.total) {
      AdvanceAllMembers(s.active, id, tokens, r);
    }
    AdvanceAllKeys(s.active, id, tokens);
    WithoutFinishedKeys(adv);
    KeysAppend(a, s.queue);
    KeysAppend(s.active, s.queue);
    SubseqSuffix(Keys(a), Keys(s.active), Keys(s.queue));
    SubseqTrans(Keys(a + s.queue), Keys(s.active + s.queue), Keys(history));
  }

  // ---------- the operations, position by position ----------

  /** Positions below n, in order. */
  ghost predicate Positions(at: seq<nat>, n: nat) {
    (forall i :: 0 <= i < |at| ==> at[i] < n) && forall i, j :: 0 <= i < j < |at| ==> at[i] < at[j]
  }

  lemma {:induction false} WithoutIdAppend(a: seq<Request>, b: seq<Request>, id: nat)
    ensures WithoutId(a + b, id) == WithoutId(a, id) + WithoutId(b, id)
  {
    if a == [] {
      assert a + b == b;
    } else {
      TailOf(a, b);
      WithoutIdAppend(a[1..], b, id);
    }
  }

  /** What complete leaves of a list. */
  function Completed(s: seq<Request>, id: nat, tokens: nat): seq<Request> {
    WithoutFinished(AdvanceAll(s, id, tokens))
  }

  lemma {:induction false} CompletedAppend(a: seq<Request>, b: seq<Request>, id: nat, tokens: nat)
    ensures Completed(a + b, id, tokens) == Completed(a, id, tokens) + Completed(b, id, tokens)
  {
    if a == [] {
      assert a + b == b;
    } else {
      hide Completed, Request.Advance;
      TailOf(a, b);
      CompletedAppend(a[1..], b, id, tokens);
      CompletedCons(a, id, tokens);
      CompletedCons(a + b, id, tokens);
      var now := a[0].Advance(id, tokens);
      Assoc(if now.phase == Finished then [] else [now], Completed(a[1..], id, tokens), Completed(b, id, tokens));
    }
  }

  lemma CompletedCons(s: seq<Request>, id: nat, tokens: nat)
    requires s != []
    ensures var now := s[0].Advance(id, tokens);
      Completed(s, id, tokens) == (if now.phase == Finished then [] else [now]) + Completed(s[1..], id, tokens)
  {
    assert AdvanceAll(s, id, tokens)[1..] == AdvanceAll(s[1..], id, tokens);
  }

  lemma CompletedOne(r: Request, id: nat, tokens: nat)
    ensures Completed([r], id, tokens) ==
      if r.Advance(id, tokens).phase == Finished then [] else [r.Advance(id, tokens)]
  {
    CompletedCons([r], id, tokens);
  }

  /** complete: what stays of the active requests, and as what. */
  lemma {:induction false} CompletesExactly(s: seq<Request>, id: nat, tokens: nat) returns (at: seq<nat>)
    ensures Positions(at, |s|) && |Completed(s, id, tokens)| == |at|
    ensures forall k :: 0 <= k < |s| ==>
      (k in at <==> if s[k].id == id then s[k].prompt + s[k].generated + tokens < s[k].total
                    else s[k].phase != Finished)
    ensures forall i :: 0 <= i < |at| ==> var was := s[at[i]];
      Completed(s, id, tokens)[i]
        == if was.id == id then was.(generated := was.generated + tokens, phase := Decode) else was
  {
    at := [];
    if s != [] {
      hide Completed;
      var k := |s| - 1;
      at := CompletesExactly(s[..k], id, tokens);
      assert s == s[..k] + [s[k]];
      CompletedAppend(s[..k], [s[k]], id, tokens);
      CompletedOne(s[k], id, tokens);
      if s[k].Advance(id, tokens).phase != Finished { at := at + [k]; }
    }
  }

  /** cancel: what stays of a list. */
  lemma {:induction false} CancelsExactly(s: seq<Request>, id: nat) returns (at: seq<nat>)
    ensures Positions(at, |s|) && |WithoutId(s, id)| == |at|
    ensures forall k :: 0 <= k < |s| ==> (k in at <==> s[k].id != id)
    ensures forall i :: 0 <= i < |at| ==> WithoutId(s, id)[i] == s[at[i]]
  {
    at := [];
    if s != [] {
      var k := |s| - 1;
      at := CancelsExactly(s[..k], id);
      assert s == s[..k] + [s[k]];
      WithoutIdAppend(s[..k], [s[k]], id);
      if s[k].id != id { at := at + [k]; }
    }
  }

  lemma {:induction false} InPhaseAppend(a: seq<Request>, b: seq<Request>, phase: Phase)
    ensures InPhase(a + b, phase) == InPhase(a, phase) + InPhase(b, phase)
  {
    if a == [] {
      assert a + b == b;
    } else {
      TailOf(a, b);
      InPhaseAppend(a[1..], b, phase);
      Assoc(if a[0].phase == phase then [a[0]] else [], InPhase(a[1..], phase), InPhase(b, phase));
    }
  }

  lemma {:induction false} IdsAppend(a: seq<Request>, b: seq<Request>)
    ensures Ids(a + b) == Ids(a) + Ids(b) && Prompts(a + b) == Prompts(a) + Prompts(b)
  {
    if a == [] {
      assert a + b == b;
    } else {
      TailOf(a, b);
      IdsAppend(a[1..], b);
      Assoc([a[0].id], Ids(a[1..]), Ids(b));
    }
  }

  /** A prefill takes its prompt, a decoding request one token. */
  function TokensAt(s: seq<Request>, at: seq<nat>): nat
    requires forall i :: 0 <= i < |at| ==> at[i] < |s|
  {
    if at == [] then 0
    else
      var r := s[at[|at| - 1]];
      TokensAt(s, at[..|at| - 1]) + if r.phase == Prefill then r.prompt else 1
  }

  lemma {:induction false} IdsExactly(s: seq<Request>)
    ensures |Ids(s)| == |s| && forall i :: 0 <= i < |s| ==> Ids(s)[i] == s[i].id
  {
    if s != [] { IdsExactly(s[1..]); }
  }

  lemma {:induction false} InPhaseExactly(s: seq<Request>, phase: Phase) returns (at: seq<nat>)
    ensures Positions(at, |s|) && |InPhase(s, phase)| == |at|
    ensures forall k :: 0 <= k < |s| ==> (k in at <==> s[k].phase == phase)
    ensures forall i :: 0 <= i < |at| ==> InPhase(s, phase)[i] == s[at[i]]
  {
    at := [];
    if s != [] {
      var k := |s| - 1;
      at := InPhaseExactly(s[..k], phase);
      assert s == s[..k] + [s[k]];
      InPhaseAppend(s[..k], [s[k]], phase);
      if s[k].phase == phase { at := at + [k]; }
    }
  }

  lemma {:induction false} TokensExactly(s: seq<Request>, at: seq<nat>, phase: Phase, chosen: seq<Request>)
    requires |chosen| == |at|
    requires forall i :: 0 <= i < |at| ==> at[i] < |s| && chosen[i] == s[at[i]] && chosen[i].phase == phase
    ensures TokensAt(s, at) == if phase == Prefill then Prompts(chosen) else |chosen|
  {
    if at != [] {
      var k := |at| - 1;
      TokensExactly(s, at[..k], phase, chosen[..k]);
      assert chosen == chosen[..k] + [chosen[k]];
      IdsAppend(chosen[..k], [chosen[k]]);
    }
  }

  /** The batch: the requests in the phase of the first one, in order, with their tokens. */
  lemma BatchExactly(active: seq<Request>) returns (at: seq<nat>)
    requires active != []
    ensures Positions(at, |active|)
    ensures forall k :: 0 <= k < |active| ==> (k in at <==> active[k].phase == active[0].phase)
    ensures BatchOf(active).phase == active[0].phase && BatchOf(active).tokens == TokensAt(active, at)
    ensures |BatchOf(active).ids| == |at| && forall i :: 0 <= i < |at| ==> BatchOf(active).ids[i] == active[at[i]].id
  {
    hide InPhase, Ids, Prompts, TokensAt;
    var chosen := InPhase(active, active[0].phase);
    at := InPhaseExactly(active, active[0].phase);
    IdsExactly(chosen);
    forall i | 0 <= i < |at| ensures chosen[i].phase == active[0].phase { assert at[i] in at; }
    TokensExactly(active, at, active[0].phase, chosen);
  }

  // ---------- how a request leaves ----------

  datatype Op = Submit(request: Request) | Cancel(id: nat) | Next | Complete(id: nat, tokens: nat)

  ghost function Step(s: State, op: Op): State {
    match op
    case Submit(r) => s.Submit(r)
    case Cancel(id) => s.Cancel(id)
    case Next => s.Admit()
    case Complete(id, tokens) => s.Complete(id, tokens)
  }

  ghost function Steps(s: State, ops: seq<Op>): State
    decreases |ops|
  {
    if ops == [] then s else Steps(Step(s, ops[0]), ops[1..])
  }

  /** The active and then the queued requests with this id. */
  ghost function With(s: seq<Request>, id: nat): seq<Request> {
    if s == [] then [] else (if s[0].id == id then [s[0]] else []) + With(s[1..], id)
  }

  ghost function Holding(s: State, id: nat): seq<Request> {
    With(s.active + s.queue, id)
  }

  /** The tokens of the completions of a request while it is active. */
  ghost function Credits(s: State, ops: seq<Op>, id: nat): seq<nat>
    decreases |ops|
  {
    if ops == [] then []
    else
      (if ops[0].Complete? && ops[0].id == id && exists r :: r in s.active && r.id == id then [ops[0].tokens] else [])
      + Credits(Step(s, ops[0]), ops[1..], id)
  }

  ghost function Sum(s: seq<nat>): nat {
    if s == [] then 0 else s[0] + Sum(s[1..])
  }

  lemma {:induction false} WithAppend(a: seq<Request>, b: seq<Request>, id: nat)
    ensures With(a + b, id) == With(a, id) + With(b, id)
  {
    if a == [] {
      assert a + b == b;
    } else {
      TailOf(a, b);
      WithAppend(a[1..], b, id);
      Assoc(if a[0].id == id then [a[0]] else [], With(a[1..], id), With(b, id));
    }
  }

  lemma {:induction false} WithWithout(s: seq<Request>, k: nat, id: nat)
    ensures With(WithoutId(s, k), id) == if k == id then [] else With(s, id)
  {
    if s != [] {
      WithWithout(s[1..], k, id);
      var head := if s[0].id == k then [] else [s[0]];
      WithAppend(head, WithoutId(s[1..], k), id);
    }
  }

  lemma {:induction false} WithCompleted(s: seq<Request>, k: nat, tokens: nat, id: nat)
    requires forall r :: r in s ==> r.phase != Finished
    ensures With(Completed(s, k, tokens), id) == if k == id then Completed(With(s, id), k, tokens) else With(s, id)
  {
    if s != [] {
      hide Completed;
      WithCompleted(s[1..], k, tokens, id);
      CompletedCons(s, k, tokens);
      var head := Completed([s[0]], k, tokens);
      CompletedOne(s[0], k, tokens);
      WithAppend(head, Completed(s[1..], k, tokens), id);
      CompletedAppend(if s[0].id == id then [s[0]] else [], With(s[1..], id), k, tokens);
      CompletedNone(k, tokens);
    }
  }

  lemma CompletedNone(id: nat, tokens: nat)
    ensures Completed([], id, tokens) == []
  {
  }

  lemma {:induction false} WithMember(s: seq<Request>, id: nat)
    ensures (exists r :: r in s && r.id == id) <==> With(s, id) != []
  {
    if s != [] {
      WithMember(s[1..], id);
      assert s == [s[0]] + s[1..];
    }
  }

  lemma StepOk(s: State, op: Op)
    requires s.Ok()
    ensures Step(s, op).Ok()
  {
    var history := s.active + s.queue;
    SubseqRefl(Keys(history));
    match op
    case Submit(r) => SubmitKeeps(s, history, r);
    case Cancel(id) => CancelKeeps(s, history, id);
    case Next => AdmitKeeps(s, history);
    case Complete(id, tokens) => CompleteKeeps(s, history, id, tokens);
  }

  /** What one operation does to the requests with one id. */
  lemma HoldingStep(s: State, op: Op, id: nat)
    requires s.Ok() && (op.Submit? ==> op.request.id != id)
    ensures Holding(s, id) == With(s.active, id) + With(s.queue, id)
    ensures Holding(Step(s, op), id) ==
      if op == Cancel(id) then []
      else if op.Complete? && op.id == id then Completed(With(s.active, id), id, op.tokens) + With(s.queue, id)
      else Holding(s, id)
  {
    hide Completed, With;
    WithAppend(s.active, s.queue, id);
    var t := Step(s, op);
    WithAppend(t.active, t.queue, id);
    match op
    case Submit(r) => WithSubmitted(s, r, id);
    case Cancel(k) =>
      WithWithout(s.active, k, id);
      WithWithout(s.queue, k, id);
    case Next => assert s.queue == s.queue[..s.Room()] + s.queue[s.Room()..]; AdmitsAll(s);
    case Complete(k, tokens) =>
      CompletesActive(s, k, tokens);
      WithCompleted(s.active, k, tokens, id);
  }

  lemma WithSubmitted(s: State, r: Request, id: nat)
    requires r.id != id
    ensures With(s.Submit(r).queue, id) == With(s.queue, id)
  {
    WithAppend(s.queue, [r.(phase := Prefill)], id);
    assert With([r.(phase := Prefill)], id) == [];
  }

  lemma AdmitsAll(s: State)
    ensures s.Admit().active + s.Admit().queue == s.active + s.queue
  {
  }

  lemma CompletesActive(s: State, id: nat, tokens: nat)
    ensures s.Complete(id, tokens) == s.(active := Completed(s.active, id, tokens))
  {
  }

  lemma {:induction false} StaysAway(s: State, ops: seq<Op>, id: nat)
    requires s.Ok() && Holding(s, id) == [] && forall op :: op in ops && op.Submit? ==> op.request.id != id
    ensures Holding(Steps(s, ops), id) == [] && Credits(s, ops, id) == []
    decreases |ops|
  {
    if ops != [] {
      hide Holding, Step, State.Ok;
      HoldingStep(s, ops[0], id);
      WithMember(s.active, id);
      CompletedNone(id, if ops[0].Complete? then ops[0].tokens else 0);
      StepOk(s, ops[0]);
      StaysAway(Step(s, ops[0]), ops[1..], id);
    }
  }

  /** Where a request that was there is after completions with these tokens. */
  ghost function Outcome(r: Request, cancelled: bool, credits: seq<nat>): seq<Request> {
    if cancelled || (credits != [] && r.prompt + r.generated + Sum(credits) >= r.total) then []
    else [r.(generated := r.generated + Sum(credits), phase := if credits == [] then r.phase else Decode)]
  }

  lemma OutcomeCons(r: Request, cancelled: bool, tokens: nat, credits: seq<nat>)
    ensures var now := r.Advance(r.id, tokens);
      if now.phase == Finished then Outcome(r, cancelled, [tokens]) == []
      else Outcome(r, cancelled, [tokens] + credits) == Outcome(now, cancelled, credits)
  {
    SumCons(tokens, credits);
    SumCons(tokens, []);
    assert [tokens] + [] == [tokens];
  }

  lemma OutcomeNone(r: Request, credits: seq<nat>)
    ensures Outcome(r, false, []) == [r] && Outcome(r, true, credits) == []
  {
  }

  lemma {:induction false} Leaves(s: State, r: Request, ops: seq<Op>)
    requires s.Ok() && Holding(s, r.id) == [r] && forall op :: op in ops && op.Submit? ==> op.request.id != r.id
    ensures Holding(Steps(s, ops), r.id) == Outcome(r, Cancel(r.id) in ops, Credits(s, ops, r.id))
    decreases |ops|
  {
    if ops == [] {
      OutcomeNone(r, []);
    } else {
      hide Holding, Step, State.Ok, Completed, With, Credits, Outcome, Request.Advance;
      var op, t, credits := ops[0], Step(s, ops[0]), Credits(Step(s, ops[0]), ops[1..], r.id);
      assert ops == [op] + ops[1..];
      HoldingStep(s, op, r.id);
      WithMember(s.active, r.id);
      StepOk(s, op);
      CreditsCons(s, ops, r.id);
      if op == Cancel(r.id) {
        StaysAway(t, ops[1..], r.id);
        OutcomeNone(r, Credits(s, ops, r.id));
      } else if op.Complete? && op.id == r.id && With(s.active, r.id) != [] {
        assert With(s.active, r.id) == [r] && With(s.queue, r.id) == [];
        CompletedOne(r, r.id, op.tokens);
        OutcomeCons(r, Cancel(r.id) in ops, op.tokens, credits);
        if r.Advance(r.id, op.tokens).phase == Finished {
          StaysAway(t, ops[1..], r.id);
          assert [op.tokens] + [] == [op.tokens];
        } else {
          AdvanceId(r, op.tokens);
          Leaves(t, r.Advance(r.id, op.tokens), ops[1..]);
        }
      } else {
        CompletedNone(r.id, if op.Complete? then op.tokens else 0);
        Leaves(t, r, ops[1..]);
      }
    }
  }

  lemma AdvanceId(r: Request, tokens: nat)
    ensures r.Advance(r.id, tokens).id == r.id
  {
  }

  lemma CreditsCons(s: State, ops: seq<Op>, id: nat)
    requires ops != []
    ensures Credits(s, ops, id) == Credits(Step(s, ops[0]), ops[1..], id)
      || Credits(s, ops, id) == [if ops[0].Complete? then ops[0].tokens else 0] + Credits(Step(s, ops[0]), ops[1..], id)
    ensures Credits(s, ops, id) == Credits(Step(s, ops[0]), ops[1..], id)
      <==> !(ops[0].Complete? && ops[0].id == id && exists r :: r in s.active && r.id == id)
  {
  }

  lemma SumCons(n: nat, s: seq<nat>)
    ensures Sum([n] + s) == n + Sum(s) && Sum([]) == 0
  {
  }

  /**
    A request leaves only by cancel, or when its prompt and all tokens completed for it reach its
    total; otherwise it is there with exactly these tokens generated.
   */
  lemma LeavesExactly(s: State, r: Request, ops: seq<Op>)
    requires s.Ok() && Holding(s, r.id) == [r] && forall op :: op in ops && op.Submit? ==> op.request.id != r.id
    ensures var credits := Credits(s, ops, r.id);
      Holding(Steps(s, ops), r.id) ==
        if Cancel(r.id) in ops || (credits != [] && r.prompt + r.generated + Sum(credits) >= r.total) then []
        else [r.(generated := r.generated + Sum(credits), phase := if credits == [] then r.phase else Decode)]
  {
    Leaves(s, r, ops);
  }

  /** The same from its submission on. */
  lemma SubmittedLeavesExactly(s: State, r: Request, ops: seq<Op>)
    requires s.Ok() && Holding(s, r.id) == [] && forall op :: op in ops && op.Submit? ==> op.request.id != r.id
    ensures var credits := Credits(s.Submit(r), ops, r.id);
      Holding(Steps(s, [Submit(r)] + ops), r.id) ==
        if Cancel(r.id) in ops || (credits != [] && r.prompt + r.generated + Sum(credits) >= r.total) then []
        else [r.(generated := r.generated + Sum(credits), phase := if credits == [] then Prefill else Decode)]
  {
    hide State.Ok, Credits, Holding;
    var q := r.(phase := Prefill);
    StepOk(s, Submit(r));
    HoldingSubmitted(s, r);
    LeavesExactly(s.Submit(r), q, ops);
    assert ([Submit(r)] + ops)[1..] == ops;
  }

  lemma HoldingSubmitted(s: State, r: Request)
    requires Holding(s, r.id) == []
    ensures Holding(s.Submit(r), r.id) == [r.(phase := Prefill)]
  {
    var q := r.(phase := Prefill);
    assert s.active + (s.queue + [q]) == s.active + s.queue + [q];
    WithAppend(s.active + s.queue, [q], r.id);
    assert With([q], r.id) == [q];
  }

  /** The batch loop has treated the first i active requests. */
  ghost predicate Collected(active: seq<Request>, phase: Phase, i: nat, ids: seq<nat>, tokens: nat)
    requires i <= |active|
  {
    var rest := InPhase(active[i..], phase);
    var all := InPhase(active, phase);
    && Ids(all) == ids + Ids(rest)
    && (if phase == Prefill then Prompts(all) == tokens + Prompts(rest) else |all| == tokens + |rest|)
  }

  lemma CollectNone(active: seq<Request>, phase: Phase)
    ensures Collected(active, phase, 0, [], 0)
  {
    assert active[0..] == active;
  }

  lemma CollectAll(active: seq<Request>, phase: Phase, ids: seq<nat>, tokens: nat)
    requires active != [] && phase == active[0].phase && Collected(active, phase, |active|, ids, tokens)
    ensures BatchOf(active) == Batch(ids, phase, tokens)
  {
    assert active[|active|..] == [];
  }

  lemma CollectOne(active: seq<Request>, phase: Phase, i: nat, ids: seq<nat>, tokens: nat)
    requires i < |active| && Collected(active, phase, i, ids, tokens)
    ensures var r := active[i];
      if r.phase == phase
      then Collected(active, phase, i + 1, ids + [r.id], tokens + if r.phase == Prefill then r.prompt else 1)
      else Collected(active, phase, i + 1, ids, tokens)
  {
    var rest, later := InPhase(active[i..], phase), InPhase(active[i + 1..], phase);
    assert active[i..][1..] == active[i + 1..];
    if active[i].phase == phase {
      assert rest == [active[i]] + later && rest[1..] == later;
      assert ids + ([active[i].id] + Ids(later)) == ids + [active[i].id] + Ids(later);
    } else {
      assert rest == later;
    }
  }

  // ---------- the class ----------

  class Scheduler {
    const maxBatch: nat
    var queue: seq<Request>
    var active: seq<Request>
    /** Every request ever submitted, in order. */
    ghost var history: seq<Request>

    ghost function Now(): State
      reads this
    {
      State(maxBatch, queue, active)
    }

    ghost predicate Valid()
      reads this
    {
      Now().Ok() && Now().InOrder(history)
    }

    constructor (limit: nat)
      ensures Valid() && queue == [] && active == [] && history == [] && maxBatch == if limit < 1 then 1 else limit
    {
      maxBatch := if limit < 1 then 1 else limit;
      queue, active, history := [], [], [];
    }

    method Submit(request: Request)
      requires Valid()
      modifies this
      ensures Valid() && Now() == old(Now()).Submit(request) && history == old(history) + [request.(phase := Prefill)]
      ensures active == old(active) && queue == old(queue) + [request.(phase := Prefill)]
    {
      SubmitKeeps(Now(), history, request);
      queue := queue + [request.(phase := Prefill)];
      history := history + [request.(phase := Prefill)];
    }

    method Cancel(id: nat)
      requires Valid()
      modifies this
      ensures Valid() && Now() == old(Now()).Cancel(id) && history == old(history)
    {
      CancelKeeps(Now(), history, id);
      queue := WithoutId(queue, id);
      active := WithoutId(active, id);
    }

    /** The first loop of next: fill the free active places from the front of the queue. */
    method FillActive()
      requires |active| <= maxBatch
      modifies `queue, `active
      ensures Now() == old(Now()).Admit()
    {
      ghost var k := 0;
      while |active| < maxBatch && queue != []
        invariant k <= |old(queue)| && queue == old(queue)[k..] && active == old(active) + old(queue)[..k]
        invariant |active| <= maxBatch
        decreases |queue|
      {
        active := active + [queue[0]];
        queue := queue[1..];
        k := k + 1;
      }
      assert k == old(Now()).Room();
    }

    /** The second loop of next: collect the requests that share the phase of the front. */
    method CollectBatch() returns (batch: Batch)
      ensures batch == BatchOf(active)
    {
      if active == [] { return Batch([], Decode, 0); }
      var phase := active[0].phase;
      var ids: seq<nat>, tokens: nat := [], 0;
      var i := 0;
      CollectNone(active, phase);
      while i < |active|
        invariant 0 <= i <= |active|
        invariant Collected(active, phase, i, ids, tokens)
      {
        var request := active[i];
        CollectOne(active, phase, i, ids, tokens);
        if request.phase == phase {
          ids := ids + [request.id];
          tokens := tokens + if request.phase == Prefill then request.prompt else 1;
        }
        i := i + 1;
      }
      CollectAll(active, phase, ids, tokens);
      batch := Batch(ids, phase, tokens);
    }

    method Next() returns (batch: Batch)
      requires Valid()
      modifies this
      ensures Valid() && Now() == old(Now()).Admit() && history == old(history)
      ensures active + queue == old(active + queue) && old(active) <= active && (queue == [] || |active| == maxBatch)
      ensures batch == BatchOf(active) && (batch.ids == [] <==> old(active + queue) == [])
    {
      hide Subseq, Keys, BatchOf, State.InOrder, State.Admit;
      BatchIsEmptyIff(Now());
      AdmitKeeps(Now(), history);
      FillActive();
      batch := CollectBatch();
    }

    /** Ghost out-parameter: the old positions of the requests that stay. */
    method Complete(id: nat, tokens: nat) returns (ghost at: seq<nat>)
      requires Valid()
      modifies this
      ensures Valid() && Now() == old(Now()).Complete(id, tokens) && history == old(history)
      ensures queue == old(queue) && Positions(at, |old(active)|) && |active| == |at|
      ensures forall k :: 0 <= k < |old(active)| ==> var r := old(active)[k];
        k in at <==> r.id != id || r.prompt + r.generated + tokens < r.total
      ensures forall i :: 0 <= i < |active| ==> var was := old(active)[at[i]];
        active[i] == if was.id == id then was.(generated := was.generated + tokens, phase := Decode) else was
    {
      hide Subseq, Keys;
      at := CompletesExactly(active, id, tokens);
      CompleteKeeps(Now(), history, id, tokens);
      AdvanceActive(id, tokens);
      active := WithoutFinished(active);
    }

    /** The loop over the active requests. */
    method AdvanceActive(id: nat, tokens: nat)
      modifies `active
      ensures active == AdvanceAll(old(active), id, tokens)
    {
      hide AdvanceAll;
      ghost var was := active;
      assert active[..0] + AdvanceAll(was[0..], id, tokens) == AdvanceAll(was, id, tokens)
        by { assert was[0..] == was; }
      for i := 0 to |active|
        invariant |active| == |was| && active[i..] == was[i..]
        invariant AdvanceAll(was, id, tokens) == active[..i] + AdvanceAll(was[i..], id, tokens)
      {
        AdvanceOne(was, active, i, id, tokens);
        if active[i].id == id {
          var generated := active[i].generated + tokens;
          var phase := if generated + active[i].prompt >= active[i].total then Finished else Decode;
          active := active[i := active[i].(generated := generated, phase := phase)];
        }
      }
      AdvanceNone(was, id, tokens);
      assert active[..|active|] == active;
    }
  }

  lemma AdvanceNone(was: seq<Request>, id: nat, tokens: nat)
    ensures AdvanceAll(was[|was|..], id, tokens) == []
  {
  }

  /** One round of the loop over the active requests. */
  lemma AdvanceOne(was: seq<Request>, now: seq<Request>, i: nat, id: nat, tokens: nat)
    requires i < |was| == |now| && now[i..] == was[i..]
    ensures now[i] == was[i]
    ensures var next := now[i := was[i].Advance(id, tokens)];
      next[i + 1..] == was[i + 1..]
        && next[..i + 1] + AdvanceAll(was[i + 1..], id, tokens) == now[..i] + AdvanceAll(was[i..], id, tokens)
  {
    var next := now[i := was[i].Advance(id, tokens)];
    assert now[i] == now[i..][0] && was[i..][0] == was[i];
    assert was[i..][1..] == was[i + 1..] && next[i + 1..] == now[i..][1..];
    assert next[..i + 1] == now[..i] + [was[i].Advance(id, tokens)];
    Assoc(now[..i], [was[i].Advance(id, tokens)], AdvanceAll(was[i + 1..], id, tokens));
  }

  // ---------- every request finishes ----------

  function Remaining(s: seq<Request>): nat {
    if s == [] then 0 else s[0].Weight() + Remaining(s[1..])
  }

  lemma {:induction false} RemainingAppend(a: seq<Request>, b: seq<Request>)
    ensures Remaining(a + b) == Remaining(a) + Remaining(b)
  {
    if a == [] {
      assert a + b == b;
    } else {
      RemainingAppend(a[1..], b);
      assert (a + b)[1..] == a[1..] + b;
    }
  }

  /** Completing never adds work, and takes some away from each request it reaches. */
  lemma {:induction false} CompleteFalls(s: seq<Request>, id: nat, tokens: nat)
    requires tokens >= 1
    ensures Remaining(WithoutFinished(AdvanceAll(s, id, tokens))) <= Remaining(s)
    ensures s != [] && s[0].id == id ==> Remaining(WithoutFinished(AdvanceAll(s, id, tokens))) < Remaining(s)
  {
    if s != [] {
      CompleteFalls(s[1..], id, tokens);
      var adv := AdvanceAll(s, id, tokens);
      assert adv[1..] == AdvanceAll(s[1..], id, tokens);
      var rest := WithoutFinished(adv[1..]);
      if adv[0].phase == Finished {
        assert WithoutFinished(adv) == rest;
      } else {
        assert WithoutFinished(adv) == [adv[0]] + rest;
        assert ([adv[0]] + rest)[1..] == rest;
      }
    }
  }

  ghost function CompleteEach(s: State, ids: seq<nat>, tokens: seq<nat>): State
    requires |ids| == |tokens|
    decreases |ids|
  {
    if ids == [] then s else CompleteEach(s.Complete(ids[0], tokens[0]), ids[1..], tokens[1..])
  }

  lemma {:induction false} CompleteEachFalls(s: State, ids: seq<nat>, tokens: seq<nat>)
    requires |ids| == |tokens| && forall i :: 0 <= i < |tokens| ==> tokens[i] >= 1
    ensures var e := CompleteEach(s, ids, tokens); e.queue == s.queue && Remaining(e.active) <= Remaining(s.active)
    decreases |ids|
  {
    if ids != [] {
      CompleteFalls(s.active, ids[0], tokens[0]);
      CompleteEachFalls(s.Complete(ids[0], tokens[0]), ids[1..], tokens[1..]);
    }
  }

  /** A batch is empty only when there is nothing to do. */
  lemma BatchIsEmptyIff(s: State)
    requires 1 <= s.maxBatch
    ensures BatchOf(s.Admit().active).ids == [] <==> s.active + s.queue == []
  {
    assert s.queue == s.queue[..s.Room()] + s.queue[s.Room()..];
    var a := s.Admit().active;
    if a != [] { assert InPhase(a, a[0].phase) != []; }
  }

  /** One round of a driver that completes every id of the batch with at least one token. */
  ghost predicate RoundOk(s: State, tokens: seq<nat>) {
    |tokens| == |BatchOf(s.Admit().active).ids| && forall i :: 0 <= i < |tokens| ==> tokens[i] >= 1
  }

  ghost function Round(s: State, tokens: seq<nat>): State
    requires RoundOk(s, tokens)
  {
    CompleteEach(s.Admit(), BatchOf(s.Admit().active).ids, tokens)
  }

  function Work(s: State): nat {
    Remaining(s.active) + Remaining(s.queue)
  }

  lemma RoundFalls(s: State, tokens: seq<nat>)
    requires 1 <= s.maxBatch && RoundOk(s, tokens) && s.active + s.queue != []
    ensures Work(Round(s, tokens)) < Work(s)
  {
    var t := s.Admit();
    RemainingAppend(s.active, s.queue[..s.Room()]);
    RemainingAppend(s.queue[..s.Room()], s.queue[s.Room()..]);
    assert s.queue == s.queue[..s.Room()] + s.queue[s.Room()..];
    var ids := BatchOf(t.active).ids;
    assert t.active != [];
    assert ids[0] == t.active[0].id;
    CompleteFalls(t.active, ids[0], tokens[0]);
    CompleteEachFalls(t.Complete(ids[0], tokens[0]), ids[1..], tokens[1..]);
  }

  ghost predicate RoundsOk(s: State, rounds: seq<seq<nat>>)
    decreases |rounds|
  {
    rounds != [] ==> RoundOk(s, rounds[0]) && RoundsOk(Round(s, rounds[0]), rounds[1..])
  }

  ghost function Rounds(s: State, rounds: seq<seq<nat>>): State
    requires RoundsOk(s, rounds)
    decreases |rounds|
  {
    if rounds == [] then s else Rounds(Round(s, rounds[0]), rounds[1..])
  }

  lemma {:induction false} CompleteEachLimit(s: State, ids: seq<nat>, tokens: seq<nat>)
    requires |ids| == |tokens|
    ensures CompleteEach(s, ids, tokens).maxBatch == s.maxBatch
    decreases |ids|
  {
    if ids != [] { CompleteEachLimit(s.Complete(ids[0], tokens[0]), ids[1..], tokens[1..]); }
  }

  /** With no new submissions, as many rounds as there is work left finish every request. */
  lemma {:induction false} AllFinish(s: State, rounds: seq<seq<nat>>)
    requires 1 <= s.maxBatch && RoundsOk(s, rounds) && |rounds| >= Work(s)
    ensures Rounds(s, rounds).active == [] && Rounds(s, rounds).queue == []
    decreases |rounds|
  {
    if s.active + s.queue == [] {
      IdleStays(s, rounds);
    } else {
      assert Work(s) > 0;
      RoundFalls(s, rounds[0]);
      CompleteEachLimit(s.Admit(), BatchOf(s.Admit().active).ids, rounds[0]);
      AllFinish(Round(s, rounds[0]), rounds[1..]);
    }
  }

  lemma {:induction false} IdleStays(s: State, rounds: seq<seq<nat>>)
    requires s.active == [] && s.queue == [] && RoundsOk(s, rounds)
    ensures Rounds(s, rounds).active == [] && Rounds(s, rounds).queue == []
    decreases |rounds|
  {
    if rounds != [] {
      assert Round(s, rounds[0]).active == [] && Round(s, rounds[0]).queue == [];
      IdleStays(Round(s, rounds[0]), rounds[1..]);
    }
  }

  // ---------- the first batch ----------

  function SubmitAll(s: State, rs: seq<Request>): State
    decreases |rs|
  {
    if rs == [] then s else SubmitAll(s.Submit(rs[0]), rs[1..])
  }

  function Prefilled(rs: seq<Request>): (r: seq<Request>)
    ensures |r| == |rs| && forall i :: 0 <= i < |r| ==> r[i] == rs[i].(phase := Prefill)
  {
    seq(|rs|, i requires 0 <= i < |rs| => rs[i].(phase := Prefill))
  }

  lemma {:induction false} SubmitAllQueues(s: State, rs: seq<Request>)
    ensures SubmitAll(s, rs) == s.(queue := s.queue + Prefilled(rs))
    decreases |rs|
  {
    hide Prefilled;
    if rs == [] {
      assert s.queue + Prefilled(rs) == s.queue;
    } else {
      SubmitAllQueues(s.Submit(rs[0]), rs[1..]);
      PrefilledCons(rs);
      Assoc(s.queue, [rs[0].(phase := Prefill)], Prefilled(rs[1..]));
    }
  }

  lemma PrefilledCons(rs: seq<Request>)
    requires rs != []
    ensures Prefilled(rs) == [rs[0].(phase := Prefill)] + Prefilled(rs[1..])
  {
  }

  /** Requests that are all prefilled make one batch, whatever phase they came with. */
  lemma {:induction false} AllInPhase(rs: seq<Request>)
    ensures InPhase(Prefilled(rs), Prefill) == Prefilled(rs)
    ensures Ids(Prefilled(rs)) == Ids(rs) && |Ids(rs)| == |rs| && Prompts(Prefilled(rs)) == Prompts(rs)
  {
    if rs != [] {
      AllInPhase(rs[1..]);
      assert Prefilled(rs)[1..] == Prefilled(rs[1..]);
      assert Prefilled(rs) == [Prefilled(rs)[0]] + Prefilled(rs)[1..];
    }
  }

  /**
    Whatever is submitted to an idle scheduler, in whatever phase and with however many generated
    tokens, the first batch prefills the first requests in order, as many as the limit admits.
   */
  lemma FirstBatch(maxBatch: nat, rs: seq<Request>)
    requires 1 <= maxBatch
    ensures var k := if |rs| < maxBatch then |rs| else maxBatch;
      var batch := BatchOf(SubmitAll(State(maxBatch, [], []), rs).Admit().active);
      && batch == (if rs == [] then Batch([], Decode, 0) else Batch(Ids(rs[..k]), Prefill, Prompts(rs[..k])))
      && |batch.ids| == k
      && (|batch.ids| == 1 <==> |rs| == 1 || (maxBatch == 1 && rs != []))
  {
    var s := State(maxBatch, [], []);
    var k := if |rs| < maxBatch then |rs| else maxBatch;
    SubmitAllQueues(s, rs);
    assert SubmitAll(s, rs).queue == Prefilled(rs);
    assert SubmitAll(s, rs).Admit().active == Prefilled(rs)[..k];
    assert Prefilled(rs)[..k] == Prefilled(rs[..k]);
    AllInPhase(rs[..k]);
  }

  /** Two requests, the second submitted with generated tokens, are prefilled in one batch. */
  lemma BothArePrefilled()
    ensures var s := State(4, [], []).Submit(Request(1, 3, 6, 0, Prefill)).Submit(Request(2, 2, 6, 2, Decode));
      BatchOf(s.Admit().active) == Batch([1, 2], Prefill, 5)
  {
    var rs := [Request(1, 3, 6, 0, Prefill), Request(2, 2, 6, 2, Decode)];
    FirstBatch(4, rs);
    assert rs[..2] == rs && rs[1..] == [rs[1]] && rs[1..][1..] == [];
    assert SubmitAll(State(4, [], []), rs) == SubmitAll(State(4, [], []).Submit(rs[0]), [rs[1]]);
  }
}
