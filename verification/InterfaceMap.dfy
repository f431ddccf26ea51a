/**
 The per-interface configuration map (applyConfigMap of api/loxinlp/nlp.go): the
 saved configuration is applied once per interface, and its routes again each time
 the interface comes back up. Applying is a foreign call whose outcome is given.
 */
module InterfaceMap {
  import opened Text

  datatype Intf = Intf(dev: string, state: bool, configApplied: bool, needRouteApply: bool)

  datatype Effect = FullApply(name: string, ok: bool) | RouteApply(name: string)

  /** A handled link event; `applies` is what a full apply would return now. */
  datatype Link = Link(name: string, up: bool, add: bool, applies: bool)

  // ----- What the history of link events says

  /** The states reported since the first successful full apply, its own included. */
  function Since(h: seq<Link>, name: string): (r: Option<seq<bool>>)
    ensures r.Some? ==> |r.value| > 0
  {
    if h == [] then None
    else
      var l, before := h[|h| - 1], Since(h[..|h| - 1], name);
      if l.name != name then before
      else if !l.add then None
      else if before.Some? then Some(before.value + [l.up])
      else if l.applies then Some([l.up])
      else None
  }

  /** The state last reported for an interface that was not deleted since. */
  function Reported(h: seq<Link>, name: string): Option<bool> {
    if h == [] then None
    else
      var l := h[|h| - 1];
      if l.name != name then Reported(h[..|h| - 1], name)
      else if l.add then Some(l.up)
      else None
  }

  /** The last change of state: up, down, or none yet. */
  function LastChange(ss: seq<bool>): Option<bool> {
    if |ss| < 2 then None
    else
      var n := |ss| - 1;
      if ss[n] != ss[n - 1] then Some(ss[n]) else LastChange(ss[..n])
  }

  /** What one more event does, given what happened before. */
  function EffectOf(h: seq<Link>, l: Link): seq<Effect> {
    var since := Since(h, l.name);
    if !l.add then []
    else if since.None? then [FullApply(l.name, l.applies)]
    else if l.up && !since.value[|since.value| - 1] && LastChange(since.value) == Some(false) then [RouteApply(l.name)]
    else []
  }

  function Effects(h: seq<Link>): seq<Effect> {
    if h == [] then [] else Effects(h[..|h| - 1]) + EffectOf(h[..|h| - 1], h[|h| - 1])
  }

  /** The map entry that the history calls for. */
  ghost predicate EntryOk(m: map<string, Intf>, h: seq<Link>, name: string) {
    var reported, since := Reported(h, name), Since(h, name);
    && (name in m <==> reported.Some?)
    && (name in m ==>
          && m[name].dev == name
          && m[name].state == reported.value
          && (m[name].configApplied <==> since.Some?)
          && (m[name].needRouteApply <==> since.Some? && LastChange(since.value) == Some(false)))
  }

  lemma {:induction false} SinceReported(h: seq<Link>, name: string)
    ensures Since(h, name).Some? ==>
              Reported(h, name) == Some(Since(h, name).value[|Since(h, name).value| - 1])
  {
    if h != [] { SinceReported(h[..|h| - 1], name); }
  }

  class ConfigMap {
    var IMap: map<string, Intf>
    var effects: seq<Effect>
    ghost var history: seq<Link>

    ghost predicate Valid()
      reads this
    {
      effects == Effects(history) && forall name: string :: EntryOk(IMap, history, name)
    }

    constructor ()
      ensures Valid() && history == [] && IMap == map[] && effects == []
    {
      IMap, effects, history := map[], [], [];
    }

    /** Applies everything that is saved for the interface; the outcome is given. */
    method ApplyAll(name: string, outcome: bool) returns (ok: bool)
      modifies this`effects
      ensures ok == outcome && effects == old(effects) + [FullApply(name, outcome)]
    {
      effects := effects + [FullApply(name, outcome)];
      ok := outcome;
    }

    method ApplyRoutes(name: string)
      modifies this`effects
      ensures effects == old(effects) + [RouteApply(name)]
    {
      effects := effects + [RouteApply(name)];
    }

    /**
     Handles one link event. The map and the effects stay those that the history of
     events calls for; without a configuration directory nothing happens.
     */
    method ApplyConfigMap(l: Link, directoryExists: bool)
      requires Valid()
      modifies this
      ensures Valid()
      ensures directoryExists ==> history == old(history) + [l] && effects == old(effects) + EffectOf(old(history), l)
      ensures !directoryExists ==> history == old(history) && effects == old(effects) && IMap == old(IMap)
      ensures forall name :: name != l.name ==> (name in IMap <==> name in old(IMap)) && (name in IMap ==> IMap[name] == old(IMap)[name])
    {
      hide Since, Reported, LastChange, Effects;
      if !directoryExists {
        return;
      }
      var name, state := l.name, l.up;
      ghost var h := history;
      assert EntryOk(IMap, h, name);
      SinceReported(h, name);
      HistoryStep(h, l);
      if l.add {
        if name in IMap {
          var configApplied := IMap[name].configApplied;
          if !IMap[name].configApplied {
            configApplied := ApplyAll(name, l.applies);
            IMap := IMap[name := Intf(name, state, configApplied, false)];
          } else if IMap[name].state != state {
            var needRouteApply := IMap[name].needRouteApply;
            if state && IMap[name].needRouteApply {
              ApplyRoutes(name);
              needRouteApply := false;
            } else if !state {
              needRouteApply := true;
            }
            IMap := IMap[name := Intf(name, state, configApplied, needRouteApply)];
          }
        } else {
          var configApplied := ApplyAll(name, l.applies);
          IMap := IMap[name := Intf(name, state, configApplied, false)];
        }
      } else {
        IMap := IMap - {name};
      }
      history := h + [l];
      forall other: string ensures EntryOk(IMap, history, other) {
        assert EntryOk(old(IMap), h, other);
        if other != name { OtherUntouched(h, l, other); }
      }
    }
  }

  /** What one more event changes for its own interface. */
  lemma HistoryStep(h: seq<Link>, l: Link)
    ensures Effects(h + [l]) == Effects(h) + EffectOf(h, l)
    ensures Reported(h + [l], l.name) == if l.add then Some(l.up) else None
    ensures !l.add ==> Since(h + [l], l.name).None?
    ensures l.add && Since(h, l.name).None? ==>
              Since(h + [l], l.name) == if l.applies then Some([l.up]) else None
    ensures l.add && Since(h, l.name).None? && l.applies ==> LastChange([l.up]).None?
    ensures l.add && Since(h, l.name).Some? ==>
              var ss := Since(h, l.name).value;
              && Since(h + [l], l.name) == Some(ss + [l.up])
              && LastChange(ss + [l.up]) == if ss[|ss| - 1] != l.up then Some(l.up) else LastChange(ss)
  {
    hide LastChange, Since, Reported, EffectOf;
    assert (h + [l])[..|h|] == h;
    SinceStep(h, l);
    ReportedStep(h, l);
    ChangeStep([], l.up);
    if Since(h, l.name).Some? {
      ChangeStep(Since(h, l.name).value, l.up);
    }
  }

  lemma SinceStep(h: seq<Link>, l: Link)
    ensures var before := Since(h, l.name);
            Since(h + [l], l.name) ==
            if !l.add then None
            else if before.Some? then Some(before.value + [l.up])
            else if l.applies then Some([l.up])
            else None
  {
    assert (h + [l])[..|h|] == h;
  }

  lemma ReportedStep(h: seq<Link>, l: Link)
    ensures Reported(h + [l], l.name) == if l.add then Some(l.up) else None
  {
    assert (h + [l])[..|h|] == h;
  }

  lemma ChangeStep(ss: seq<bool>, up: bool)
    ensures ss == [] ==> LastChange([up]).None?
    ensures ss != [] ==> LastChange(ss + [up]) == if ss[|ss| - 1] != up then Some(up) else LastChange(ss)
  {
    assert (ss + [up])[..|ss|] == ss;
  }

  lemma OtherUntouched(h: seq<Link>, l: Link, other: string)
    requires other != l.name
    ensures Since(h + [l], other) == Since(h, other) && Reported(h + [l], other) == Reported(h, other)
  {
    assert (h + [l])[..|h|] == h;
  }

  // ----- What holds over every sequence of events

  lemma {:induction false} AppliedStays(h: seq<Link>, name: string, i: nat, j: nat)
    requires i <= j <= |h| && Since(h[..i], name).Some?
    requires forall k :: i <= k < j ==> !(h[k].name == name && !h[k].add)
    ensures Since(h[..j], name).Some?
    decreases j
  {
    if i < j {
      AppliedStays(h, name, i, j - 1);
      assert h[..j][..j - 1] == h[..j - 1];
    }
  }

  /** After a successful full apply there is no further one until the interface is deleted. */
  lemma NoSecondFullApply(h: seq<Link>, i: nat, j: nat)
    requires i < j < |h| && h[i].name == h[j].name
    requires EffectOf(h[..i], h[i]) == [FullApply(h[i].name, true)]
    requires EffectOf(h[..j], h[j]) == [FullApply(h[j].name, h[j].applies)]
    ensures exists k :: i < k < j && h[k].name == h[i].name && !h[k].add
  {
    assert h[..i + 1] == h[..i] + [h[i]];
    HistoryStep(h[..i], h[i]);
    if forall k :: i + 1 <= k < j ==> !(h[k].name == h[i].name && !h[k].add) {
      AppliedStays(h, h[i].name, i + 1, j);
    }
  }

  /** Event `i` applied the configuration of `name` successfully, and the interface was not deleted since. */
  predicate AppliedAt(h: seq<Link>, name: string, i: nat) {
    && i < |h| && h[i].name == name && h[i].add && h[i].applies
    && forall k :: i < k < |h| ==> !(h[k].name == name && !h[k].add)
  }

  lemma {:induction false} AppliedExactly(h: seq<Link>, name: string)
    ensures Since(h, name).Some? <==> exists i: nat :: AppliedAt(h, name, i)
  {
    if h != [] {
      var n := |h| - 1;
      var p := h[..n];
      AppliedExactly(p, name);
      assert forall k :: 0 <= k < n ==> p[k] == h[k];
      if i: nat :| AppliedAt(p, name, i) {
        if !(h[n].name == name && !h[n].add) { assert AppliedAt(h, name, i); }
      }
      if i: nat :| AppliedAt(h, name, i) {
        if i < n { assert AppliedAt(p, name, i); }
      }
      if h[n].name == name && h[n].add && h[n].applies { assert AppliedAt(h, name, n); }
    }
  }

  /** The whole configuration is applied exactly when the interface appears without an earlier successful apply. */
  lemma FullApplyExactly(h: seq<Link>, l: Link)
    ensures EffectOf(h, l) == [FullApply(l.name, l.applies)] <==> l.add && !exists i: nat :: AppliedAt(h, l.name, i)
  {
    hide Since, LastChange, AppliedAt;
    AppliedExactly(h, l.name);
  }

  /** Route applies for `name` among the effects after its last successful full apply. */
  function RoutesSince(effects: seq<Effect>, name: string): nat {
    if effects == [] then 0
    else
      var n := |effects| - 1;
      if effects[n] == FullApply(name, true) then 0
      else RoutesSince(effects[..n], name) + if effects[n] == RouteApply(name) then 1 else 0
  }

  /** The interface comes back up: up now, down just before, and up at some time before that. */
  predicate IsReturn(ss: seq<bool>, n: nat) {
    0 < n < |ss| && ss[n] && !ss[n - 1] && true in ss[..n]
  }

  function Returns(ss: seq<bool>): set<nat> {
    set n: nat | n < |ss| && IsReturn(ss, n)
  }

  /** The last change went down exactly when the interface is down and was up before. */
  lemma {:induction false} WentDown(ss: seq<bool>)
    requires ss != []
    ensures LastChange(ss) == Some(false) <==> !ss[|ss| - 1] && true in ss
  {
    if |ss| > 1 {
      var n := |ss| - 1;
      WentDown(ss[..n]);
      assert ss == ss[..n] + [ss[n]];
    }
  }

  lemma ReturnsStep(ss: seq<bool>, up: bool)
    requires ss != []
    ensures Returns(ss + [up]) == Returns(ss) + if up && !ss[|ss| - 1] && true in ss then {|ss|} else {}
  {
    var more := ss + [up];
    forall n: nat | n < |ss| ensures IsReturn(more, n) <==> IsReturn(ss, n) {
      assert more[..n] == ss[..n];
    }
    assert more[..|ss|] == ss;
    assert IsReturn(more, |ss|) <==> up && !ss[|ss| - 1] && true in ss;
  }

  /** Routes after one more event: none right after a full apply, one more for a route apply. */
  lemma RoutesStep(effects: seq<Effect>, e: Effect, name: string)
    ensures RoutesSince(effects + [e], name) ==
            if e == FullApply(name, true) then 0
            else RoutesSince(effects, name) + if e == RouteApply(name) then 1 else 0
  {
    assert (effects + [e])[..|effects|] == effects;
  }

  /** Since the apply, the routes were applied exactly once for each return of the interface. */
  lemma {:induction false} RoutesPerReturn(h: seq<Link>, name: string)
    ensures Since(h, name).Some? ==> RoutesSince(Effects(h), name) == |Returns(Since(h, name).value)|
  {
    hide Since, LastChange, RoutesSince, Returns;
    if h == [] {
      SinceStart(name);
    } else {
      var p, l := h[..|h| - 1], h[|h| - 1];
      assert h == p + [l];
      RoutesPerReturn(p, name);
      RoutesOneMore(p, l, name);
    }
  }

  lemma SinceStart(name: string)
    ensures Since([], name).None?
  {
  }

  /** An event keeps the two counts equal. */
  lemma RoutesOneMore(p: seq<Link>, l: Link, name: string)
    requires Since(p, name).Some? ==> RoutesSince(Effects(p), name) == |Returns(Since(p, name).value)|
    ensures Since(p + [l], name).Some? ==> RoutesSince(Effects(p + [l]), name) == |Returns(Since(p + [l], name).value)|
  {
    hide Since, LastChange, RoutesSince, Returns, Effects;
    HistoryStep(p, l);
    var es := EffectOf(p, l);
    if es == [] {
      assert Effects(p) + es == Effects(p);
    } else {
      RoutesStep(Effects(p), es[0], name);
      assert es == [es[0]];
    }
    if l.name != name {
      OtherUntouched(p, l, name);
    } else if l.add && Since(p, name).Some? {
      var ss := Since(p, name).value;
      WentDown(ss);
      ReturnsStep(ss, l.up);
      ReturnsWithin(ss);
    } else {
      NoReturnYet(l.up);
    }
  }

  lemma ReturnsWithin(ss: seq<bool>)
    ensures |ss| !in Returns(ss)
  {
  }

  lemma NoReturnYet(up: bool)
    ensures Returns([up]) == {}
  {
  }
}
