/**
 The objects that run the protocol: requests, the rpc object with its dispatcher, and deferred replies. Every method
 does to the objects what the state machine in `Protocol` says; `View` is the endpoint the objects stand for.
 */
module RpcObjects {
  import opened Bytes
  import opened MsgWrapper
  import P = Protocol
  import Coder

  class Request {
    /** The rpc object whose books the request appears in, and its place there. */
    ghost const home: Rpc
    ghost const id: nat

    var rpc: Rpc?
    var selfKeeper: Request?
    var seqNo: seqno
    var cmd: bytes
    var payload: bytes
    var needRsp: bool
    var canceled: bool
    /** Which form of callback `rsp` has installed. */
    var rspHandle: Option<P.RspKind>
    var retryCount: int
    var waitingRsp: bool
    var isPing: bool

    constructor (home: Rpc, ghost id: nat, rpc: Rpc?)
      ensures this.home == home && this.id == id && this.rpc == rpc && selfKeeper == null
      ensures View() == P.NewRequest(rpc != null)
    {
      this.home, this.id, this.rpc := home, id, rpc;
      selfKeeper, seqNo, cmd, payload := null, 0, [], [];
      needRsp, canceled, rspHandle, retryCount, waitingRsp, isPing := false, false, None, 0, false, false;
    }

    function View(): P.Request
      reads this
    {
      P.Request(cmd, payload, needRsp, rspHandle, canceled, retryCount, waitingRsp, selfKeeper != null, isPing,
        rpc != null, seqNo)
    }

    ghost predicate Valid()
      reads this, home, home.requests, home.deferred
    {
      home.Valid() && home.Owns(this)
    }

    // ---- What the user sets ----

    method Cmd(cmd: bytes)
      requires Valid()
      modifies this
      ensures Valid() && home.View() == P.Apply(old(home.View()), id, P.SetCmd(cmd))
    {
      this.cmd := cmd;
      home.Updated(this);
    }

    method SetMsg(payload: bytes)
      requires Valid()
      modifies this
      ensures Valid() && home.View() == P.Apply(old(home.View()), id, P.SetMsg(payload))
    {
      this.payload := payload;
      home.Updated(this);
    }

    method Ping()
      requires Valid()
      modifies this
      ensures Valid() && home.View() == P.Apply(old(home.View()), id, P.SetPing)
    {
      isPing := true;
      home.Updated(this);
    }

    method Rsp(kind: P.RspKind)
      requires Valid()
      modifies this
      ensures Valid() && home.View() == P.Apply(old(home.View()), id, P.SetRsp(kind))
    {
      needRsp := true;
      rspHandle := Some(kind);
      home.Updated(this);
    }

    method EnableRsp()
      requires Valid()
      modifies this
      ensures Valid() && home.View() == P.Apply(old(home.View()), id, P.EnableRsp)
    {
      needRsp := true;
      home.Updated(this);
    }

    method DisableRsp()
      requires Valid()
      modifies this
      ensures Valid() && home.View() == P.Apply(old(home.View()), id, P.DisableRsp)
    {
      needRsp := false;
      home.Updated(this);
    }

    method Retry(count: int)
      requires Valid()
      modifies this, home`log
      ensures Valid() && home.View() == P.Apply(old(home.View()), id, P.SetRetry(count))
    {
      hide P.Count, P.LastRetrySet, P.RetriesSince;
      retryCount := count;
      home.Updated(this);
      home.Note(P.RetrySet(id, count));
    }

    method SetCanceled(canceled: bool)
      requires Valid()
      modifies this
      ensures Valid() && home.View() == P.Apply(old(home.View()), id, P.SetCanceled(canceled))
    {
      this.canceled := canceled;
      home.Updated(this);
    }

    method Cancel()
      requires Valid()
      modifies this, home`log
      ensures Valid() && home.View() == P.Apply(old(home.View()), id, P.Cancel)
    {
      hide P.OnFinish;
      SetCanceled(true);
      OnFinish(P.Canceled);
    }

    method ResetCancel()
      requires Valid()
      modifies this
      ensures Valid() && home.View() == P.Apply(old(home.View()), id, P.SetCanceled(false))
    {
      SetCanceled(false);
    }

    // ---- What happens to the request ----

    method OnFinish(outcome: P.Outcome)
      requires Valid()
      modifies this, home`log
      ensures Valid() && home.View() == P.OnFinish(old(home.View()), id, outcome)
    {
      hide P.Count, P.LastRetrySet, P.RetriesSince;
      if !waitingRsp {
        return;
      }
      waitingRsp := false;
      home.Updated(this);
      home.Note(P.Finished(id, outcome));
      label noted:
      selfKeeper := null;
      home.Updated@noted(this);
    }

    method Call(rpc: Rpc?)
      requires Valid() && (rpc == null || rpc == home)
      modifies this, home
      ensures Valid() && home.requests == old(home.requests) && home.deferred == old(home.deferred)
      ensures home.View() == P.Call(old(home.View()), id, rpc != null)
    {
      hide P.OnFinish, P.Launch, P.Enter, P.Keep, P.HandlersOwned;
      Enter();
      if canceled {
        OnFinish(P.Canceled);
        return;
      }
      Keep(rpc);
      if this.rpc == null {
        OnFinish(P.RpcExpired);
        return;
      }
      if !this.rpc.isReady {
        OnFinish(P.RpcNotReady);
        return;
      }
      Launch();
    }

    method Enter()
      requires Valid()
      modifies `waitingRsp, home`log
      ensures Valid() && home.View() == P.Enter(old(home.View()), id)
    {
      hide P.Count, P.LastRetrySet, P.RetriesSince;
      waitingRsp := true;
      home.Updated(this);
      home.Note(P.Called(id, !old(waitingRsp)));
    }

    method Keep(rpc: Rpc?)
      requires Valid() && (rpc == null || rpc == home)
      modifies `selfKeeper, `rpc
      ensures Valid() && home.View() == P.Keep(old(home.View()), id, rpc != null)
    {
      selfKeeper := this;
      if rpc != null {
        this.rpc := rpc;
      }
      home.Updated(this);
    }

    /** The end of `call`: a number, the command, and nothing to wait for unless a response is needed. */
    method Launch()
      requires Valid() && rpc != null
      modifies this, home
      ensures Valid() && home.requests == old(home.requests) && home.deferred == old(home.deferred)
      ensures home.View() == P.Launch(old(home.View()), id)
    {
      hide P.OnFinish, P.SendRequest;
      var drawn := rpc.MakeSeq();
      label made:
      seqNo := drawn;
      home.Updated@made(this);
      rpc.SendRequest(this);
      if !needRsp {
        OnFinish(P.NoNeedRsp);
      }
    }

    /** The closure that `timeout` installs. */
    method OnTimeout()
      requires Valid()
      modifies this, home
      ensures Valid() && home.requests == old(home.requests) && home.deferred == old(home.deferred)
      ensures home.View() == P.OnTimeout(old(home.View()), id)
    {
      hide P.Count, P.LastRetrySet, P.RetriesSince, P.OnFinish, P.Call, P.HandlersOwned;
      if retryCount == -1 {
        home.Updated(this);
        home.Note(P.Retried(id));
        Call(null);
      } else if retryCount > 0 {
        retryCount := retryCount - 1;
        home.Updated(this);
        home.Note(P.Retried(id));
        Call(null);
      } else {
        OnFinish(P.Timeout);
      }
    }

    /**
     The closures that the three forms of `rsp` install; `decodes` says whether the data can be read as the callback's
     type.
     */
    method HandleRsp(kind: P.RspKind, m: Msg, decodes: bool) returns (ok: bool)
      requires Valid()
      modifies this, home`log
      ensures Valid() && home.View() == P.HandleRsp(old(home.View()), P.Handler(id, kind), m, decodes)
      ensures ok == (P.RspOutcome(old(canceled), Has(m.mtype, NO_SUCH_CMD), kind, decodes) != P.RspSerializeError)
    {
      hide P.Count, P.LastRetrySet, P.RetriesSince, P.OnFinish, P.HandlersOwned, Has;
      if canceled {
        OnFinish(P.Canceled);
        return true;
      }
      if Has(m.mtype, NO_SUCH_CMD) {
        OnFinish(P.NoSuchCmd);
        return true;
      }
      match kind
      case NoArgs =>
        home.Note(P.RspCallback(id, m.seqNo, m, true));
        OnFinish(P.Normal);
        ok := true;
      case DataOnly =>
        if decodes {
          home.Note(P.RspCallback(id, m.seqNo, m, true));
          OnFinish(P.Normal);
          ok := true;
        } else {
          OnFinish(P.RspSerializeError);
          ok := false;
        }
      case DataAndOutcome =>
        if decodes {
          home.Note(P.RspCallback(id, m.seqNo, m, true));
          OnFinish(P.Normal);
          ok := true;
        } else {
          home.Note(P.RspCallback(id, m.seqNo, m, false));
          OnFinish(P.RspSerializeError);
          ok := false;
        }
    }
  }

  datatype RspHandler = RspHandler(request: Request, kind: P.RspKind)

  /**
   A `request_response` and its helper: once the handler has returned, `sendAsync` holds the reply message to fill in.
   */
  class RequestResponse {
    /** Owns the connection that the reply goes out through. */
    const home: Rpc
    ghost const index: nat
    ghost const seqNo: seqno
    ghost const cmd: bytes
    const req: bytes

    var rspReady: bool
    var rspData: bytes
    var sendAsync: Option<Msg>

    ghost predicate For(m: Msg) {
      seqNo == m.seqNo && cmd == m.cmd && req == m.data
    }

    ghost predicate Fresh(m: Msg)
      reads this
    {
      For(m) && !rspReady && sendAsync == None
    }

    constructor (home: Rpc, ghost index: nat, m: Msg)
      ensures this.home == home && this.index == index && Fresh(m)
    {
      this.home, this.index, this.seqNo, this.cmd, this.req := home, index, m.seqNo, m.cmd, m.data;
      rspReady, rspData, sendAsync := false, [], None;
    }

    ghost function View(): P.Deferred
      reads this
    {
      P.Deferred(seqNo, cmd, req, rspReady, sendAsync.Some?)
    }

    /** `rr->rsp(data)`. */
    method Rsp(data: bytes)
      requires home.Valid() && home.Defers(this)
      modifies this, home`log, home`sent, home`packages
      ensures home.Valid() && home.Defers(this)
      ensures home.View() == P.OnDeferred(old(home.View()), index, data)
      ensures rspReady && rspData == (if old(rspReady) then old(rspData) else data) && sendAsync == old(sendAsync)
    {
      hide P.Count, P.LastRetrySet, P.RetriesSince, P.HandlersOwned, Coder.Wire;
      if rspReady {
        return;
      }
      rspReady := true;
      rspData := data;
      home.UpdatedDeferred(this);
      home.Note(P.Produced(seqNo, cmd, req, data, P.DeferredResult));
      if sendAsync.Some? {
        var mw := sendAsync.value;
        mw := mw.(data := rspData);
        home.SendPackage(mw);
      }
    }
  }

  class Rpc {
    var seqNo: seqno
    var isReady: bool
    var timerSet: bool
    var rspHandleMap: map<seqno, RspHandler>
    /** For each command whether its handler is asynchronous. */
    var cmdHandleMap: map<bytes, bool>
    /** The numbers whose closures the timer holds. */
    var timers: set<seqno>
    /** Everything handed to the connection. */
    var packages: seq<bytes>

    ghost var drawn: nat
    ghost var sent: seq<Msg>
    ghost var log: seq<P.Event>
    ghost var requests: seq<Request>
    ghost var deferred: seq<RequestResponse>

    constructor ()
      ensures Valid() && View() == P.EMPTY && requests == [] && deferred == []
    {
      seqNo, isReady, timerSet, rspHandleMap, cmdHandleMap, timers, packages := 0, false, false, map[], map[], {}, [];
      drawn, sent, log, requests, deferred := 0, [], [], [], [];
    }

    ghost function Handlers(): map<seqno, P.Handler>
      reads this
    {
      map s | s in rspHandleMap :: P.Handler(rspHandleMap[s].request.id, rspHandleMap[s].kind)
    }

    ghost function Requests(): seq<P.Request>
      reads this, requests
    {
      seq(|requests|, i requires 0 <= i < |requests| reads this, requests => requests[i].View())
    }

    ghost function Deferreds(): seq<P.Deferred>
      reads this, deferred
    {
      seq(|deferred|, i requires 0 <= i < |deferred| reads this, deferred => deferred[i].View())
    }

    ghost function View(): P.Endpoint
      reads this, requests, deferred
    {
      P.Endpoint(drawn, isReady, timerSet, Requests(), Handlers(), timers, cmdHandleMap, Deferreds(), sent, log)
    }

    ghost predicate Owns(r: Request)
      reads this
    {
      r.home == this && r.id < |requests| && requests[r.id] == r
    }

    ghost predicate Defers(rr: RequestResponse)
      reads this
    {
      rr.home == this && rr.index < |deferred| && deferred[rr.index] == rr
    }

    /** A request is bound to this rpc object or to none, and holds at most itself. */
    ghost predicate OkRequest(r: Request)
      reads this, r
    {
      (r.rpc == null || r.rpc == this) && (r.selfKeeper == null || r.selfKeeper == r)
    }

    /** The message that is filled in later is the response to the command. */
    ghost predicate OkDeferred(rr: RequestResponse)
      reads rr
    {
      rr.sendAsync == None || rr.sendAsync == Some(Msg(rr.seqNo, [], RESPONSE, [], None))
    }

    ghost predicate Valid()
      reads this, requests, deferred
    {
      && seqNo == drawn % WORD32
      && (forall i :: 0 <= i < |requests| ==> requests[i].home == this && requests[i].id == i && OkRequest(requests[i]))
      && (forall k :: 0 <= k < |deferred| ==>
          deferred[k].home == this && deferred[k].index == k && OkDeferred(deferred[k]))
      && (forall s :: s in rspHandleMap ==> Owns(rspHandleMap[s].request))
      && |packages| == |sent|
      && (forall i :: 0 <= i < |sent| ==> Coder.Deserialize(packages[i]) == Some(sent[i]))
    }

    /** Only one request has changed. */
    twostate lemma Updated(r: Request)
      requires old(Valid()) && Owns(r) && OkRequest(r) && unchanged(this)
      requires forall i :: 0 <= i < |requests| && i != r.id ==> unchanged(requests[i])
      requires forall k :: 0 <= k < |deferred| ==> unchanged(deferred[k])
      ensures Valid() && View() == P.WithRequest(old(View()), r.id, r.View())
    {
      assert Requests() == old(Requests())[r.id := r.View()];
      assert Deferreds() == old(Deferreds());
    }

    /** Only one deferred reply has changed. */
    twostate lemma UpdatedDeferred(rr: RequestResponse)
      requires old(Valid()) && Defers(rr) && OkDeferred(rr) && unchanged(this)
      requires forall k :: 0 <= k < |deferred| && k != rr.index ==> unchanged(deferred[k])
      requires forall i :: 0 <= i < |requests| ==> unchanged(requests[i])
      ensures Valid() && View() == old(View()).(deferred := old(View()).deferred[rr.index := rr.View()])
    {
      assert Deferreds() == old(Deferreds())[rr.index := rr.View()];
      assert Requests() == old(Requests());
    }

    /** Makes an event observable. */
    ghost method Note(e: P.Event)
      requires Valid()
      modifies `log
      ensures Valid() && View() == P.Note(old(View()), e)
    {
      hide P.Count, P.LastRetrySet, P.RetriesSince, Coder.Deserialize;
      log := log + [e];
    }

    /** `send_package_impl(coder::serialize(m))`. */
    method SendPackage(m: Msg)
      requires Valid()
      modifies `packages, `sent
      ensures Valid() && View() == P.Transmit(old(View()), m)
    {
      hide Coder.Deserialize, Coder.Serialize, Coder.Wire;
      var package := Coder.SerializeMsg(m);
      Coder.DeserializeSerialize(m);
      packages := packages + [package];
      sent := sent + [Coder.Wire(m)];
    }

    method MakeSeq() returns (s: seqno)
      requires Valid()
      modifies `seqNo, `drawn
      ensures Valid() && s == old(drawn) % WORD32
      ensures View() == old(View()).(drawn := old(drawn) + 1)
    {
      s := seqNo;
      seqNo := (seqNo + 1) % WORD32;
      drawn := drawn + 1;
    }

    method CreateRequest(bound: bool) returns (r: Request)
      requires Valid()
      modifies `requests
      ensures Valid() && fresh(r) && Owns(r) && requests == old(requests) + [r]
      ensures View() == old(View()).(requests := old(View()).requests + [P.NewRequest(bound)])
    {
      hide Coder.Deserialize;
      r := new Request(this, |requests|, if bound then this else null);
      requests := requests + [r];
      assert Requests() == old(Requests()) + [r.View()];
    }

    method SetReady(ready: bool)
      requires Valid()
      modifies `isReady
      ensures Valid() && View() == old(View()).(ready := ready)
    {
      isReady := ready;
    }

    method SetTimer(present: bool)
      requires Valid()
      modifies `timerSet
      ensures Valid() && View() == old(View()).(timerSet := present)
    {
      timerSet := present;
    }

    method SendRequest(request: Request)
      requires Valid() && Owns(request)
      modifies `rspHandleMap, `timers, `packages, `sent, `log
      ensures Valid() && View() == P.SendRequest(old(View()), request.id)
    {
      hide P.Count, P.LastRetrySet, P.RetriesSince, P.SubscribeRsp, P.Transmit, Coder.Wire, P.CommandType,
        P.HandlersOwned;
      assert View().requests[request.id] == request.View();
      if request.needRsp {
        SubscribeRsp(request.seqNo, request, request.rspHandle);
      }
      var m := Msg(request.seqNo, request.cmd, P.CommandType(request.isPing, request.needRsp), [],
        Some(request.payload));
      Note(P.Sent(request.id, Coder.Wire(m)));
      SendPackage(m);
    }

    // ---- The dispatcher ----

    method SubscribeRsp(s: seqno, request: Request, handle: Option<P.RspKind>)
      requires Valid() && Owns(request)
      modifies `rspHandleMap, `timers, `log
      ensures Valid() && View() == P.SubscribeRsp(old(View()), request.id, s, handle)
    {
      hide P.Count, P.LastRetrySet, P.RetriesSince, Coder.Deserialize, P.HandlersOwned;
      if handle == None {
        return;
      }
      if !timerSet {
        return;
      }
      Register(s, request, handle.value);
      Note(P.Registered(request.id, s));
    }

    /** The handler goes into the table and a closure for its number to the timer. */
    method Register(s: seqno, request: Request, kind: P.RspKind)
      requires Valid() && Owns(request)
      modifies `rspHandleMap, `timers
      ensures Valid()
      ensures var was := old(View());
              View() == was.(handlers := was.handlers[s := P.Handler(request.id, kind)], armed := was.armed + {s})
    {
      hide Coder.Deserialize;
      rspHandleMap := rspHandleMap[s := RspHandler(request, kind)];
      assert Handlers() == old(Handlers())[s := P.Handler(request.id, kind)];
      timers := timers + {s};
    }

    method SubscribeCmd(cmd: bytes, async: bool)
      requires Valid()
      modifies `cmdHandleMap
      ensures Valid() && View() == old(View()).(cmds := old(View()).cmds[cmd := async])
    {
      cmdHandleMap := cmdHandleMap[cmd := async];
    }

    method UnsubscribeCmd(cmd: bytes)
      requires Valid()
      modifies `cmdHandleMap
      ensures Valid() && View() == old(View()).(cmds := old(View()).cmds - {cmd})
    {
      if cmd in cmdHandleMap {
        cmdHandleMap := cmdHandleMap - {cmd};
      }
    }

    method Erase(s: seqno)
      requires Valid()
      modifies `rspHandleMap
      ensures Valid() && View() == P.Erase(old(View()), s)
    {
      rspHandleMap := rspHandleMap - {s};
      assert Handlers() == old(Handlers()) - {s};
    }

    /** The closure given to the timer. */
    method FireTimer(s: seqno)
      requires Valid()
      modifies this, requests
      ensures Valid() && requests == old(requests) && deferred == old(deferred)
      ensures P.HandlersOwned(old(View())) && View() == P.FireTimer(old(View()), s)
    {
      hide P.Count, P.LastRetrySet, P.RetriesSince, P.OnTimeout, Coder.Deserialize;
      OwnedView();
      timers := timers - {s};
      if s in rspHandleMap {
        var request := rspHandleMap[s].request;
        Note(P.TimedOut(request.id, s));
        assert View() == P.Expire(old(View()), s);
        request.OnTimeout();
        Erase(s);
      }
    }

    method CreateResponse(m: Msg) returns (rr: RequestResponse)
      requires Valid()
      modifies `deferred
      ensures Valid() && fresh(rr) && deferred == old(deferred) + [rr] && Defers(rr) && rr.Fresh(m)
      ensures View() == Handled(old(View()), m, []) && rr.index == |old(View()).deferred|
    {
      hide P.Count, P.LastRetrySet, P.RetriesSince, Coder.Deserialize;
      rr := new RequestResponse(this, |deferred|, m);
      deferred := deferred + [rr];
      assert Deferreds() == old(Deferreds()) + [rr.View()];
      assert Requests() == old(Requests());
    }

    /** An asynchronous handler has run up to its return, calling `rsp` with each of `before`. */
    method HandleAsync(m: Msg, before: seq<bytes>) returns (rr: RequestResponse)
      requires Valid()
      modifies `deferred, `log, `sent, `packages
      ensures Valid() && fresh(rr) && deferred == old(deferred) + [rr] && Defers(rr) && rr.For(m)
      ensures rr.sendAsync == None && rr.rspReady == (before != []) && (rr.rspReady ==> rr.rspData == before[0])
      ensures View() == Handled(old(View()), m, before)
    {
      hide Valid, View, Handled, Coder.Wire;
      rr := CreateResponse(m);
      assert before[..0] == [];
      for i := 0 to |before|
        invariant Valid() && deferred == old(deferred) + [rr]
        invariant rr.sendAsync == None && rr.rspReady == (i > 0) && (i > 0 ==> rr.rspData == before[0])
        invariant View() == Handled(old(View()), m, before[..i])
        modifies rr, `log, `sent, `packages
      {
        HandledMore(old(View()), m, before, i);
        rr.Rsp(before[i]);
      }
      assert before[..|before|] == before;
    }

    /** A command, as the dispatcher treats it; `run` is what the subscribed handler does. */
    method OnCommand(m: Msg, run: P.HandlerRun)
      requires Valid()
      modifies this
      ensures Valid() && requests == old(requests) && old(deferred) <= deferred
      ensures View() == P.OnCommand(old(View()), m, run)
    {
      hide P.Count, P.LastRetrySet, P.RetriesSince, P.HandlersOwned, Coder.Wire, Has;
      if Has(m.mtype, PING) {
        Note(P.Produced(m.seqNo, m.cmd, m.data, m.data, P.Echo));
        SendPackage(m.(mtype := RESPONSE + PONG));
        return;
      }
      var needRsp := Has(m.mtype, NEED_RSP);
      if m.cmd !in cmdHandleMap {
        if needRsp {
          Note(P.Refused(m.seqNo, m.cmd, m.data, m.cmd in cmdHandleMap));
          SendPackage(Msg(m.seqNo, [], RESPONSE + NO_SUCH_CMD, [], None));
        }
        return;
      }
      match run
      case Undecodable =>
      case Replies(data) =>
        Note(P.Produced(m.seqNo, m.cmd, m.data, data, P.HandlerResult));
        if needRsp {
          SendPackage(Msg(m.seqNo, [], RESPONSE, data, None));
        }
      case Defers(before) => OnAsyncCommand(m, before, needRsp);
    }

    method OnAsyncCommand(m: Msg, before: seq<bytes>, needRsp: bool)
      requires Valid() && !Has(m.mtype, PING) && m.cmd in cmdHandleMap && needRsp == Has(m.mtype, NEED_RSP)
      modifies `deferred, `log, `sent, `packages
      ensures Valid() && old(deferred) <= deferred
      ensures View() == P.OnCommand(old(View()), m, P.Defers(before))
    {
      hide P.Count, P.LastRetrySet, P.RetriesSince, P.HandlersOwned, Coder.Wire, Has, Valid;
      var rr := HandleAsync(m, before);
      if needRsp {
        var rsp := Msg(m.seqNo, [], RESPONSE, [], None);
        if rr.rspReady {
          rsp := rsp.(data := rr.rspData);
          SendPackage(rsp);
        } else {
          label handled:
          rr.sendAsync := Some(rsp);
          UpdatedDeferred@handled(rr);
        }
      }
    }

    /** A response or pong. */
    method OnResponse(m: Msg, decodes: bool)
      requires Valid()
      modifies this, requests
      ensures Valid() && requests == old(requests) && deferred == old(deferred)
      ensures P.HandlersOwned(old(View())) && View() == P.OnResponse(old(View()), m, decodes)
    {
      hide P.Count, P.LastRetrySet, P.RetriesSince, P.HandleRsp, P.HandlersOwned, Coder.Deserialize;
      OwnedView();
      if m.seqNo !in rspHandleMap {
        return;
      }
      var cb := rspHandleMap[m.seqNo];
      Note(P.Answered(cb.request.id, m.seqNo, m));
      var ok := cb.request.HandleRsp(cb.kind, m, decodes);
      Erase(m.seqNo);
    }

    method Dispatch(m: Msg, run: P.HandlerRun, decodes: bool)
      requires Valid()
      modifies this, requests
      ensures Valid() && requests == old(requests) && old(deferred) <= deferred
      ensures P.HandlersOwned(old(View())) && View() == P.Dispatch(old(View()), m, run, decodes)
    {
      hide P.OnCommand, P.OnResponse, P.HandlersOwned;
      OwnedView();
      if m.mtype % 4 == COMMAND {
        OnCommand(m, run);
      } else if m.mtype % 4 == RESPONSE {
        OnResponse(m, decodes);
      }
    }

    /** `on_recv_package`: a payload that is no message is only logged. */
    method OnRecvPackage(payload: bytes, run: P.HandlerRun, decodes: bool)
      requires Valid()
      modifies this, requests
      ensures Valid() && requests == old(requests) && old(deferred) <= deferred
      ensures P.HandlersOwned(old(View()))
      ensures match Coder.Deserialize(payload)
              case Some(m) => View() == P.Dispatch(old(View()), m, run, decodes)
              case None => View() == old(View())
    {
      hide P.Dispatch, P.HandlersOwned, Coder.Deserialize;
      OwnedView();
      var success, m := Coder.DeserializeMsg(payload);
      if success {
        Dispatch(m, run, decodes);
      }
    }

    /** Delivering any package the peer has ever handed to its connection is a `Receive` step of the state machine. */
    method Deliver(peer: Rpc, i: nat, run: P.HandlerRun, decodes: bool)
      requires Valid() && peer.Valid() && i < |peer.packages|
      requires P.Enabled(View(), peer.View().sent, P.Receive(i, run, decodes))
      modifies this, requests
      ensures Valid() && P.HandlersOwned(old(View()))
      ensures View() == P.Next(old(View()), old(peer.View().sent), P.Receive(i, run, decodes))
    {
      hide P.Dispatch, P.HandlersOwned, Coder.Deserialize;
      OnRecvPackage(peer.packages[i], run, decodes);
    }

    lemma OwnedView()
      requires Valid()
      ensures P.HandlersOwned(View())
    {
    }
  }

  /** The endpoint when an asynchronous handler returns: a `request_response` more, ready if `rsp` was called. */
  ghost function Handled(ep: P.Endpoint, m: Msg, before: seq<bytes>): P.Endpoint {
    var run := ep.(deferred := ep.deferred + [P.Deferred(m.seqNo, m.cmd, m.data, before != [], false)]);
    if before == [] then run else P.Note(run, P.Produced(m.seqNo, m.cmd, m.data, before[0], P.DeferredResult))
  }

  lemma HandledMore(ep: P.Endpoint, m: Msg, before: seq<bytes>, i: nat)
    requires i < |before|
    ensures P.OnDeferred(Handled(ep, m, before[..i]), |ep.deferred|, before[i]) == Handled(ep, m, before[..i + 1])
  {
    hide P.Count, P.LastRetrySet, P.RetriesSince, P.HandlersOwned;
  }
}
