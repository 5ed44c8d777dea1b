/** `dispose`: a list of requests that are canceled together. */
module Dispose {
  import opened Bytes
  import opened Runs
  import opened CancelSafety
  import opened RpcObjects
  import P = Protocol

  // ---- Canceling many requests ----

  ghost predicate Known(ep: P.Endpoint, ids: seq<nat>) {
    forall i :: 0 <= i < |ids| ==> ids[i] < |ep.requests|
  }

  /** `cancel` on each of the requests, in order. */
  ghost function CancelAll(ep: P.Endpoint, ids: seq<nat>): (r: P.Endpoint)
    requires Known(ep, ids)
    ensures |r.requests| == |ep.requests|
    decreases |ids|
  {
    if ids == [] then ep else P.Apply(CancelAll(ep, Init(ids)), Last(ids), P.Cancel)
  }

  /**
   It quiets exactly the listed requests that were not quiet before, and all that is seen of anyone is canceled
   endings.
   */
  lemma {:induction false} CancelAllQuiets(ep: P.Endpoint, ids: seq<nat>, id: nat)
    requires Known(ep, ids)
    ensures var r := CancelAll(ep, ids);
            && (Quieted(r, id) <==> id in ids || Quieted(ep, id))
            && SilentSince(ep.log, r.log, id)
    decreases |ids|
  {
    hide Silent;
    if ids != [] {
      var before := CancelAll(ep, Init(ids));
      CancelAllQuiets(ep, Init(ids), id);
      CancelSeen(before, Last(ids), id);
      SilentTransitive(ep.log, before.log, CancelAll(ep, ids).log, id);
      assert ids == Init(ids) + [Last(ids)];
    }
  }

  lemma CancelSeen(ep: P.Endpoint, target: nat, id: nat)
    requires target < |ep.requests|
    ensures var r := P.Apply(ep, target, P.Cancel);
            (Quieted(r, id) <==> id == target || Quieted(ep, id)) && SilentSince(ep.log, r.log, id)
  {
    hide P.Count, P.LastRetrySet, P.RetriesSince;
  }

  /**
   After a dismissal none of the listed requests sends or calls back again, whatever run follows, until it is reset.
   */
  lemma {:induction false} DismissedStaySilent(ep: P.Endpoint, ids: seq<nat>, p: Pair, acts: seq<Act>, onLeft: bool,
      id: nat)
    requires Known(ep, ids) && id in ids && p.Of(onLeft) == CancelAll(ep, ids)
    requires p.Owned() && Legal(p, acts)
    requires forall i :: 0 <= i < |acts| ==> acts[i] != Act(onLeft, P.User(id, P.SetCanceled(false)))
    ensures SilentSince(ep.log, Exec(p, acts).Of(onLeft).log, id)
  {
    hide Silent, CancelAll, Exec, Legal;
    CancelAllQuiets(ep, ids, id);
    SilentUntilReset(p, acts, onLeft, id);
    SilentTransitive(ep.log, p.Of(onLeft).log, Exec(p, acts).Of(onLeft).log, id);
  }

  // ---- The object ----

  /** `r` are the elements of `s` at the given places, in ascending order. */
  ghost predicate Selects(r: seq<Request>, s: seq<Request>, places: seq<nat>) {
    && |places| == |r|
    && (forall i, j :: 0 <= i < j < |places| ==> places[i] < places[j])
    && (forall j :: 0 <= j < |places| ==> places[j] < |s| && r[j] == s[places[j]])
  }

  /** The places among the first `n` at which a request stays when `request` and everything destroyed is removed. */
  ghost predicate Stay(s: seq<Request>, n: nat, request: Request, gone: set<Request>, places: seq<nat>)
    requires n <= |s|
  {
    forall i: nat :: i in places <==> i < n && s[i] !in gone && s[i] != request
  }

  ghost predicate Reached(r: Request, gone: set<Request>, home: Rpc) {
    r.home == home && r !in gone
  }

  /** The requests of one rpc object that the weak references of a list still reach, in order. */
  ghost function Live(requests: seq<Request>, gone: set<Request>, home: Rpc): (ids: seq<nat>)
    ensures forall i :: 0 <= i < |requests| && Reached(requests[i], gone, home) ==> requests[i].id in ids
    ensures forall id <- ids ::
              exists i :: 0 <= i < |requests| && requests[i].id == id && Reached(requests[i], gone, home)
    decreases |requests|
  {
    if requests == [] then []
    else
      Live(Init(requests), gone, home)
      + (if Last(requests) in gone || Last(requests).home != home then [] else [Last(requests).id])
  }

  class Disposer {
    var requests: seq<Request>

    constructor ()
      ensures requests == []
    {
      requests := [];
    }

    method Add(request: Request)
      modifies this
      ensures requests == old(requests) + [request]
    {
      requests := requests + [request];
    }

    /**
     Drops the request wherever it occurs, and every reference to a destroyed one (`gone`): `remove_if` moves what stays
     to the front, `erase` cuts the rest off.
     */
    method Remove(request: Request, gone: set<Request>)
      modifies this
      ensures exists places :: Selects(requests, old(requests), places)
                               && Stay(old(requests), |old(requests)|, request, gone, places)
    {
      ghost var places: seq<nat> := [];
      var kept := 0;
      for i := 0 to |requests|
        invariant kept <= i && |requests| == |old(requests)|
        invariant requests[i..] == old(requests)[i..]
        invariant Selects(requests[..kept], old(requests), places)
        invariant Stay(old(requests), i, request, gone, places)
      {
        var param := requests[i];
        assert param == requests[i..][0] == old(requests)[i];
        if param !in gone && param != request {
          requests := requests[kept := param];
          places := places + [i];
          kept := kept + 1;
        }
      }
      requests := requests[..kept];
    }

    /** Cancels whatever is still reachable, whichever rpc object it belongs to, and forgets everything. */
    method Dismiss(ghost homes: set<Rpc>, gone: set<Request>)
      requires forall home <- homes :: home.Valid()
      requires forall r <- requests :: r.home in homes && r.home.Owns(r)
      modifies this, requests, homes`log
      ensures requests == [] && forall home <- homes :: home.Valid()
      ensures forall home <- homes :: Canceled(old(home.View()), Live(old(requests), gone, home), home.View())
    {
      hide P.Apply, Rpc.Valid, Rpc.View, Live, Canceled;
      ghost var all := requests;
      forall home <- homes
        ensures Canceled(home.View(), Live(all[..0], gone, home), home.View())
      {
        NoneLive(home.View(), gone, home);
      }
      for i := 0 to |requests|
        invariant requests == all && forall home <- homes :: home.Valid()
        invariant forall r <- all :: r.home in homes && r.home.Owns(r)
        invariant forall home <- homes :: Canceled(old(home.View()), Live(all[..i], gone, home), home.View())
      {
        var r := requests[i];
        OwnedIsKnown(r.home, r);
        forall home <- homes
          ensures Canceled(old(home.View()),
                           Live(all[..i], gone, home) + (if r in gone || r.home != home then [] else [r.id]),
                           if r in gone || r.home != home then home.View() else P.Apply(home.View(), r.id, P.Cancel))
          ensures Live(all[..i + 1], gone, home) == Live(all[..i], gone, home)
            + (if r in gone || r.home != home then [] else [r.id])
        {
          LiveMore(all, gone, i, home);
          if r !in gone && r.home == home {
            CancelMore(old(home.View()), Live(all[..i], gone, home), home.View(), r.id);
          } else {
            assert Live(all[..i], gone, home) + [] == Live(all[..i], gone, home);
          }
        }
        if r !in gone {
          CancelOne(homes, r);
        }
      }
      assert all[..|all|] == all;
      requests := [];
    }
  }

  /** Canceling a request shows in its own rpc object only. */
  method CancelOne(ghost homes: set<Rpc>, r: Request)
    requires r.home in homes && r.home.Owns(r) && forall home <- homes :: home.Valid()
    modifies r, r.home`log
    ensures forall home <- homes :: home.Valid()
    ensures forall home <- homes ::
              home.View() == if home == r.home then P.Apply(old(home.View()), r.id, P.Cancel) else old(home.View())
  {
    hide P.Apply;
    forall home <- homes | home != r.home
      ensures r !in home.requests
    {
    }
    r.Cancel();
  }

  /** `now` is `was` after the requests with these places were canceled in order. */
  ghost predicate Canceled(was: P.Endpoint, ids: seq<nat>, now: P.Endpoint) {
    Known(was, ids) && now == CancelAll(was, ids)
  }

  lemma OwnedIsKnown(home: Rpc, r: Request)
    requires home.Owns(r)
    ensures r.id < |home.View().requests|
  {
  }

  lemma NoneLive(ep: P.Endpoint, gone: set<Request>, home: Rpc)
    ensures Canceled(ep, Live([], gone, home), ep)
  {
  }

  lemma CancelMore(was: P.Endpoint, ids: seq<nat>, now: P.Endpoint, id: nat)
    requires Canceled(was, ids, now) && id < |now.requests|
    ensures Canceled(was, ids + [id], P.Apply(now, id, P.Cancel))
  {
    hide P.Apply;
    assert Init(ids + [id]) == ids;
  }

  lemma LiveMore(all: seq<Request>, gone: set<Request>, i: nat, home: Rpc)
    requires i < |all|
    ensures Live(all[..i + 1], gone, home)
         == Live(all[..i], gone, home) + (if all[i] in gone || all[i].home != home then [] else [all[i].id])
  {
    assert Init(all[..i + 1]) == all[..i];
  }
}
