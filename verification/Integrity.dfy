/**
  Two more facts about every run of `Store`: no service write overwrites an edit that was made since
  the service was read, and admission lets in exactly the pools that it should.
 */
module Integrity {
  import opened Basics
  import opened Net
  import opened Ranges
  import opened Owners
  import opened Ipam
  import opened Store

  // ---------------------------------------------------------------- lost updates

  /** A version names one content: whoever still sees the version sees the service. */
  ghost predicate VersionOk(st: State, key: string, now: Progress) {
    && (key in st.services ==> st.services[key].version <= st.clock)
    && (!now.Idle? ==> now.svc.version <= st.clock)
    && (!now.Idle? && key in st.services && st.services[key].version == now.svc.version ==> st.services[key] == now.svc)
  }

  ghost predicate VersionsOk(st: State) {
    forall key :: VersionOk(st, key, ProgressOf(st, key))
  }

  /** A step that keeps the stored services, and reads them afresh if at all. */
  lemma ReadingKeepsVersions(st: State, after: State)
    requires VersionsOk(st) && after.services == st.services && after.clock == st.clock
    requires forall key :: var now := ProgressOf(after, key);
      || now.Idle? || (!ProgressOf(st, key).Idle? && now.svc == ProgressOf(st, key).svc)
      || (key in st.services && now.svc == st.services[key])
    ensures VersionsOk(after)
  {
    forall key ensures VersionOk(after, key, ProgressOf(after, key)) {
      assert VersionOk(st, key, ProgressOf(st, key));
    }
  }

  lemma WritingKeepsVersions(st: State, e: Event)
    requires VersionsOk(st) && (e.WriteLabel? || e.WriteStatus? || e.PutService? || e.DropService?)
    ensures VersionsOk(Step(st, e))
  {
    forall key ensures VersionOk(Step(st, e), key, ProgressOf(Step(st, e), key)) {
      assert VersionOk(st, key, ProgressOf(st, key));
    }
  }

  lemma VersionsStep(st: State, e: Event)
    requires VersionsOk(st)
    ensures VersionsOk(Step(st, e))
  {
    if e.WriteLabel? || e.WriteStatus? || e.PutService? || e.DropService? {
      WritingKeepsVersions(st, e);
    } else {
      ReadingKeepsVersions(st, Step(st, e));
    }
  }

  lemma {:induction false} VersionsRun(st: State, events: seq<Event>)
    requires VersionsOk(st)
    ensures VersionsOk(Run(st, events))
    decreases |events|
  {
    if events != [] {
      VersionsStep(st, events[0]);
      VersionsRun(Step(st, events[0]), events[1..]);
    }
  }

  /** The two services differ at most in what a reconcile writes. */
  predicate SameEdit(x: Service, y: Service) {
    x.(poolLabel := y.poolLabel, ingress := y.ingress, version := y.version) == y
  }

  /**
    No lost update. In every reachable state a label or status write of a reconcile changes the
    service only if it is still the service that was read, and then only in label or status.
   */
  lemma NoLostUpdate(history: seq<Event>, key: string, ok: bool)
    ensures var st := Run(INITIAL, history);
      var labelled, restated := WriteLabelStep(st, key, ok), WriteStatusStep(st, key, ok);
      && (labelled.services != st.services ==>
            && key in st.services && st.services[key] == ProgressOf(st, key).svc
            && labelled.services == st.services[key := labelled.services[key]]
            && SameEdit(st.services[key], labelled.services[key])
            && labelled.services[key].ingress == st.services[key].ingress)
      && (restated.services != st.services ==>
            && key in st.services && st.services[key] == ProgressOf(st, key).svc
            && restated.services == st.services[key := restated.services[key]]
            && SameEdit(st.services[key], restated.services[key])
            && restated.services[key].poolLabel == st.services[key].poolLabel)
  {
    VersionsRun(INITIAL, history);
    assert VersionOk(Run(INITIAL, history), key, ProgressOf(Run(INITIAL, history), key));
  }

  // ---------------------------------------------------------------- admission

  predicate Holds(b: Block, v: int) {
    b.first <= v < b.first + b.size
  }

  /** No integer lies in both pools. */
  ghost predicate Apart(b: Block, c: Block) {
    forall v :: !(Holds(b, v) && Holds(c, v))
  }

  lemma ApartIff(b: Block, c: Block)
    requires Sound(b) && Sound(c)
    ensures Overlaps(b, c) <==> !Apart(b, c)
  {
    if Overlaps(b, c) {
      var v: int := if b.first > c.first then b.first else c.first;
      assert Holds(b, v) && Holds(c, v);
    }
  }

  /**
    A new pool among pools with addresses is admitted if and only if it shares no integer with any of
    them and is not a second default; it is then created empty, and nothing else changes.
   */
  lemma CreateAdmittedIff(st: State, name: string, block: Block, isDefault: bool)
    requires name != "" && name !in st.pools && Sound(block)
    requires forall n :: n in st.pools ==> Sound(st.pools[n].block)
    ensures var after := Step(st, CreatePool(name, block, isDefault));
      && (name in after.pools <==>
            && (forall n :: n in st.pools ==> Apart(block, st.pools[n].block))
            && (isDefault ==> forall n :: n in st.pools ==> !st.pools[n].isDefault))
      && (name in after.pools ==>
            after == st.(pools := st.pools[name := Pool(block, false, false, isDefault, false, 0, map[], 0, false)]))
  {
    forall n | n in st.pools ensures Overlaps(block, st.pools[n].block) <==> !Apart(block, st.pools[n].block) {
      ApartIff(block, st.pools[n].block);
    }
  }

  /** An update is admitted unless it makes a second default; it changes the two marks and nothing else. */
  lemma EditAdmittedIff(st: State, name: string, disabled: bool, isDefault: bool)
    requires Inv(st) && name in st.pools
    ensures var edited := st.(pools := st.pools[name := st.pools[name].(disabled := disabled, isDefault := isDefault)]);
      Step(st, EditPool(name, disabled, isDefault)) ==
        if isDefault && exists n :: n in st.pools && n != name && st.pools[n].isDefault then st else edited
  {
  }

  /** The life of a pool under every event: its block never changes, it is marked once, and only marked it goes. */
  lemma PoolLife(st: State, e: Event, name: string)
    requires name in st.pools
    ensures var after := Step(st, e).pools;
      && (name !in after <==> e == RemovePool(name) && st.pools[name].deleting)
      && (name in after ==> after[name].block == st.pools[name].block)
      && (name in after ==> (after[name].deleting <==> st.pools[name].deleting || e == DeletePool(name)))
  {
  }

  /** Every Kubernetes name gives a key. */
  lemma NamesGiveKeys(namespace: string, name: string)
    requires '/' !in namespace && '/' !in name && ';' !in namespace && ';' !in name
    ensures IsKey(namespace + "/" + name)
  {
    SplitWord(name, '/');
    SplitAt(namespace, name, '/');
  }
}
