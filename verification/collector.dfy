/** The refresh route of `app.py`: walk the configured sources in order,
    decode each with the decoder its `type` names, and set one gauge cell per
    alias, labelled `(certName, certAlias, certPath)`. The gauge lives for
    the whole process and is never cleared. */
module Collector {
  import opened Results
  import Decoders
  import Expiry

  type Days = Decoders.Days

  /** The four type strings the route recognises, and everything else. */
  datatype SourceType = Jks | Pem | Pkcs | Url | Unsupported

  function TypeOf(tag: string): (t: SourceType)
    ensures t == Jks <==> tag == "JKS"
    ensures t == Pem <==> tag == "PEM"
    ensures t == Pkcs <==> tag == "PKCS"
    ensures t == Url <==> tag == "URL"
    ensures t == Unsupported <==> tag !in {"JKS", "PEM", "PKCS", "URL"}
  {
    if tag == "JKS" then Jks
    else if tag == "PEM" then Pem
    else if tag == "PKCS" then Pkcs
    else if tag == "URL" then Url
    else Unsupported
  }

  /** One entry of the configuration list. `port` is read by the remote
      decoder and `passphrase` by the JKS and PKCS#12 decoders; both reach
      the model only through what `fetch` answers for the entry. */
  datatype SourceConfig = SourceConfig(
    name: string, kind: string, path: string, port: Option<int>, passphrase: Option<string>)

  datatype Labels = Labels(certName: string, certAlias: string, certPath: string)

  /** The `certs_expiry_dates` gauge: one value per label triple. */
  type Gauge = map<Labels, int>

  /** The decoder a supported type selects. */
  function Decode(t: SourceType, path: string, content: Decoders.Content, now: int): (r: Result<Days, Decoders.DecodeError>)
    requires t != Unsupported
    ensures t != Jks ==>
              (r.Success? <==> content.Single? && content.cert.Cert?
                               && Expiry.DaysToExpire(content.cert.notAfter, now).Some?)
    ensures t != Jks && r.Success? ==> r.value.Keys == {path}
    ensures t != Jks && r.Success? ==> Expiry.DaysToExpire(content.cert.notAfter, now) == Some(r.value[path])
    ensures t == Jks ==> r == Decoders.JksDaysToExpire(content, now)
    ensures t == Jks ==> (r.Success? ==> content.Store?)
    ensures t == Jks && content.Store? ==>
              (r.Success? <==> forall i :: 0 <= i < |content.privateKeys| ==>
                                 Decoders.EntryDays(content.privateKeys[i], now).Success?)
    ensures t == Jks && r.Success? ==>
              r.value.Keys == set i | 0 <= i < |content.privateKeys| :: content.privateKeys[i].alias
  {
    match t
    case Jks => Decoders.JksAliasKeys(content, now); Decoders.JksDaysToExpire(content, now)
    case Pem => Decoders.PemDaysToExpire(path, content, now)
    case Pkcs => Decoders.PkcsDaysToExpire(path, content, now)
    case Url => Decoders.RemoteExpiryDays(path, content, now)
  }

  /** Whether a source's writes land on cell `l`'s name and path. */
  predicate Targets(src: SourceConfig, l: Labels) {
    src.name == l.certName && src.path == l.certPath
  }

  /** `for alias in certs_data: gauge.labels(name, alias, path).set(...)`:
      one cell per alias is set; every other cell keeps its value; no cell
      is removed. */
  function Publish(gauge: Gauge, name: string, path: string, data: Days): (g: Gauge)
    ensures g.Keys == gauge.Keys + set a | a in data :: Labels(name, a, path)
    ensures forall a :: a in data ==> g[Labels(name, a, path)] == data[a]
    ensures forall l :: l in gauge && !(l.certName == name && l.certPath == path && l.certAlias in data)
                        ==> g[l] == gauge[l]
  {
    gauge + map a | a in data :: Labels(name, a, path) := data[a]
  }

  /** What the loop carries from one source to the next: `certs_data`, which
      is only reassigned by a supported source, and the gauge. */
  datatype State = State(certsData: Days, gauge: Gauge)

  /** One iteration of the loop. An unsupported type leaves `certs_data` as
      the previous source left it, and those aliases are published again
      under this source's name and path. A decoder that raises ends the
      iteration before anything is published. */
  function Step(src: SourceConfig, fetch: SourceConfig -> Decoders.Content, now: int, st: State)
    : (r: Result<State, Decoders.DecodeError>)
    ensures TypeOf(src.kind) == Unsupported ==>
              r == Success(State(st.certsData, Publish(st.gauge, src.name, src.path, st.certsData)))
    ensures TypeOf(src.kind) != Unsupported ==>
              && (r.Success? <==> Decode(TypeOf(src.kind), src.path, fetch(src), now).Success?)
              && (r.Success? ==> r.value.certsData == Decode(TypeOf(src.kind), src.path, fetch(src), now).value)
              && (r.Failure? ==> r.error == Decode(TypeOf(src.kind), src.path, fetch(src), now).error)
    ensures r.Success? ==> r.value.gauge == Publish(st.gauge, src.name, src.path, r.value.certsData)
  {
    var t := TypeOf(src.kind);
    var data :- if t == Unsupported then Success(st.certsData) else Decode(t, src.path, fetch(src), now);
    Success(State(data, Publish(st.gauge, src.name, src.path, data)))
  }

  /** The outcome of a pass: it reached the end of the list, or a decoder
      raised at source `at` and the rest of the list was never visited. */
  datatype Pass = Completed(state: State) | Aborted(gauge: Gauge, at: nat, failure: Decoders.DecodeError) {
    function FinalGauge(): Gauge {
      match this
      case Completed(s) => s.gauge
      case Aborted(g, _, _) => g
    }
  }

  function Shift(p: Pass, k: nat): Pass {
    match p
    case Completed(_) => p
    case Aborted(g, i, e) => Aborted(g, i + k, e)
  }

  /** The loop over the configuration list, head first. No cell is ever
      removed from the gauge, and an abort names a source of the list. */
  function Run(srcs: seq<SourceConfig>, fetch: SourceConfig -> Decoders.Content, now: int, st: State): (r: Pass)
    ensures r.FinalGauge().Keys >= st.gauge.Keys
    ensures r.Aborted? ==> r.at < |srcs|
    decreases |srcs|
  {
    if |srcs| == 0 then Completed(st)
    else
      match Step(srcs[0], fetch, now, st)
      case Failure(e) => Aborted(st.gauge, 0, e)
      case Success(st') => Shift(Run(srcs[1..], fetch, now, st'), 1)
  }

  const Body := "Check the /metrics for more details"

  /** The route's answer: the fixed text when the pass completes, an
      internal server error (the uncaught exception) otherwise. Either way
      the gauge keeps every write made before the end of the pass. */
  datatype Reply = Ok(body: string, gauge: Gauge) | ServerError(at: nat, failure: Decoders.DecodeError, gauge: Gauge)

  /** `main()`: `certs_data` starts empty on every request; the gauge is the
      one the process has kept since it started. */
  function Refresh(config: seq<SourceConfig>, fetch: SourceConfig -> Decoders.Content, now: int, gauge: Gauge)
    : (r: Reply)
    ensures r.Ok? <==> Run(config, fetch, now, State(map[], gauge)).Completed?
    ensures r.Ok? ==> r.body == "Check the /metrics for more details"
    ensures r.Ok? ==> r.gauge == Run(config, fetch, now, State(map[], gauge)).state.gauge
    ensures r.ServerError? ==> r.gauge == Run(config, fetch, now, State(map[], gauge)).gauge
    ensures r.gauge.Keys >= gauge.Keys
    ensures r.ServerError? ==> r.at < |config|
  {
    match Run(config, fetch, now, State(map[], gauge))
    case Completed(s) => Ok(Body, s.gauge)
    case Aborted(g, i, e) => ServerError(i, e, g)
  }

  // ---------------------------------------------------------------------
  // Properties of a pass.

  /** Sources are processed strictly in list order: a pass over `a + b` is a
      pass over `a` followed by a pass over `b` from where `a` left off, and
      nothing of `b` runs when `a` aborts. */
  lemma {:induction false} RunInOrder(a: seq<SourceConfig>, b: seq<SourceConfig>,
                                      fetch: SourceConfig -> Decoders.Content, now: int, st: State)
    ensures Run(a + b, fetch, now, st)
            == match Run(a, fetch, now, st)
               case Completed(s) => Shift(Run(b, fetch, now, s), |a|)
               case Aborted(_, _, _) => Run(a, fetch, now, st)
    decreases |a|
  {
    if |a| > 0 {
      assert (a + b)[0] == a[0];
      assert (a + b)[1..] == a[1..] + b;
      match Step(a[0], fetch, now, st)
      case Failure(e) =>
      case Success(st') =>
        RunInOrder(a[1..], b, fetch, now, st');
    } else {
      assert a + b == b;
    }
  }

  /** Whether some step of the pass sets cell `l`: a successful step whose
      source targets `l`'s name and path and whose `certs_data` holds
      `l`'s alias. */
  predicate WritesCell(srcs: seq<SourceConfig>, fetch: SourceConfig -> Decoders.Content, now: int, st: State, l: Labels)
    decreases |srcs|
  {
    |srcs| > 0 &&
    match Step(srcs[0], fetch, now, st)
    case Failure(_) => false
    case Success(st') =>
      (Targets(srcs[0], l) && l.certAlias in st'.certsData) || WritesCell(srcs[1..], fetch, now, st', l)
  }

  /** One step leaves every cell it does not set as it was: present with
      the same value, or still absent. */
  lemma StepFrame(src: SourceConfig, fetch: SourceConfig -> Decoders.Content, now: int, st: State, l: Labels)
    requires Step(src, fetch, now, st).Success?
    requires !(Targets(src, l) && l.certAlias in Step(src, fetch, now, st).value.certsData)
    ensures l in Step(src, fetch, now, st).value.gauge <==> l in st.gauge
    ensures l in st.gauge ==> Step(src, fetch, now, st).value.gauge[l] == st.gauge[l]
  {
  }

  /** Cells not written in a pass keep their previous values, and cells
      that did not exist are not created. This covers cells of a source that
      still runs but no longer reports the alias, such as a key removed from
      a keystore. */
  lemma {:induction false} UntouchedCellsKeepValues(srcs: seq<SourceConfig>, fetch: SourceConfig -> Decoders.Content,
                                                    now: int, st: State, l: Labels)
    requires !WritesCell(srcs, fetch, now, st, l)
    ensures l in Run(srcs, fetch, now, st).FinalGauge() <==> l in st.gauge
    ensures l in st.gauge ==> Run(srcs, fetch, now, st).FinalGauge()[l] == st.gauge[l]
    decreases |srcs|
  {
    if |srcs| > 0 {
      match Step(srcs[0], fetch, now, st)
      case Failure(e) =>
      case Success(st') =>
        StepFrame(srcs[0], fetch, now, st, l);
        UntouchedCellsKeepValues(srcs[1..], fetch, now, st', l);
    }
  }

  /** A cell whose name and path no source of the list targets is never
      written. */
  lemma {:induction false} NoTargetNoWrite(srcs: seq<SourceConfig>, fetch: SourceConfig -> Decoders.Content,
                                           now: int, st: State, l: Labels)
    requires forall i :: 0 <= i < |srcs| ==> !Targets(srcs[i], l)
    ensures !WritesCell(srcs, fetch, now, st, l)
    decreases |srcs|
  {
    if |srcs| > 0 {
      assert !Targets(srcs[0], l);
      match Step(srcs[0], fetch, now, st)
      case Failure(e) =>
      case Success(st') =>
        assert forall i :: 0 <= i < |srcs[1..]| ==> srcs[1..][i] == srcs[i + 1];
        NoTargetNoWrite(srcs[1..], fetch, now, st', l);
    }
  }

  /** The stale-alias case: a supported source that no longer reports an
      alias leaves that alias's cell at its old value. */
  lemma StaleAliasKept(src: SourceConfig, fetch: SourceConfig -> Decoders.Content, now: int, gauge: Gauge, l: Labels)
    requires TypeOf(src.kind) != Unsupported
    requires Decode(TypeOf(src.kind), src.path, fetch(src), now).Success?
    requires l in gauge && l.certAlias !in Decode(TypeOf(src.kind), src.path, fetch(src), now).value
    ensures Refresh([src], fetch, now, gauge).Ok?
    ensures l in Refresh([src], fetch, now, gauge).gauge
    ensures Refresh([src], fetch, now, gauge).gauge[l] == gauge[l]
  {
    var st := State(map[], gauge);
    assert [src][1..] == [];
    assert !WritesCell([src], fetch, now, st, l);
    UntouchedCellsKeepValues([src], fetch, now, st, l);
  }

  /** After a supported source is processed, its cell for each alias of the
      decoder's answer holds that alias's days. */
  lemma SupportedSourcePublishes(a: seq<SourceConfig>, src: SourceConfig,
                                 fetch: SourceConfig -> Decoders.Content, now: int, st: State)
    requires Run(a, fetch, now, st).Completed?
    requires TypeOf(src.kind) != Unsupported
    requires Decode(TypeOf(src.kind), src.path, fetch(src), now).Success?
    ensures Run(a + [src], fetch, now, st).Completed?
    ensures var data := Decode(TypeOf(src.kind), src.path, fetch(src), now).value;
            forall alias :: alias in data ==>
              && Labels(src.name, alias, src.path) in Run(a + [src], fetch, now, st).FinalGauge()
              && Run(a + [src], fetch, now, st).FinalGauge()[Labels(src.name, alias, src.path)] == data[alias]
  {
    RunInOrder(a, [src], fetch, now, st);
  }

  /** Last writer wins: a cell keeps the value its latest writer set, however
      many sources wrote it before, as long as no later step writes it. */
  lemma LastWriterWins(a: seq<SourceConfig>, src: SourceConfig, b: seq<SourceConfig>,
                       fetch: SourceConfig -> Decoders.Content, now: int, st: State, alias: string)
    requires Run(a + [src], fetch, now, st).Completed?
    requires alias in Run(a + [src], fetch, now, st).state.certsData
    requires !WritesCell(b, fetch, now, Run(a + [src], fetch, now, st).state, Labels(src.name, alias, src.path))
    ensures Labels(src.name, alias, src.path) in Run(a + [src] + b, fetch, now, st).FinalGauge()
    ensures Run(a + [src] + b, fetch, now, st).FinalGauge()[Labels(src.name, alias, src.path)]
            == Run(a + [src], fetch, now, st).state.certsData[alias]
  {
    var s := Run(a + [src], fetch, now, st).state;
    RunInOrder(a, [src], fetch, now, st);
    var s0 := Run(a, fetch, now, st).state;
    assert s.gauge == Publish(s0.gauge, src.name, src.path, s.certsData);
    RunInOrder(a + [src], b, fetch, now, st);
    UntouchedCellsKeepValues(b, fetch, now, s, Labels(src.name, alias, src.path));
  }

  /** A decoder that raises aborts the pass at that source: the sources after
      it are never visited, and the writes of the sources before it stay in
      the gauge. */
  lemma FailureAbortsRest(a: seq<SourceConfig>, bad: SourceConfig, b: seq<SourceConfig>,
                          fetch: SourceConfig -> Decoders.Content, now: int, st: State)
    requires Run(a, fetch, now, st).Completed?
    requires Step(bad, fetch, now, Run(a, fetch, now, st).state).Failure?
    ensures Run(a + [bad] + b, fetch, now, st)
            == Aborted(Run(a, fetch, now, st).state.gauge, |a|,
                       Step(bad, fetch, now, Run(a, fetch, now, st).state).error)
  {
    RunInOrder(a, [bad] + b, fetch, now, st);
    assert a + [bad] + b == a + ([bad] + b);
  }

  /** An unsupported first source writes nothing: `certs_data` is still the
      empty map, so the pass is the pass over the rest of the list. */
  lemma UnsupportedFirstWritesNothing(u: SourceConfig, rest: seq<SourceConfig>,
                                      fetch: SourceConfig -> Decoders.Content, now: int, gauge: Gauge)
    requires TypeOf(u.kind) == Unsupported
    ensures Run([u] + rest, fetch, now, State(map[], gauge))
            == Shift(Run(rest, fetch, now, State(map[], gauge)), 1)
  {
    var e: Days := map[];
    assert Publish(gauge, u.name, u.path, e) == gauge;
    assert ([u] + rest)[1..] == rest;
  }

  /** An unsupported source after others re-publishes the previous source's
      aliases and values under its own name and path. */
  lemma UnsupportedRepublishes(a: seq<SourceConfig>, u: SourceConfig,
                               fetch: SourceConfig -> Decoders.Content, now: int, st: State)
    requires Run(a, fetch, now, st).Completed?
    requires TypeOf(u.kind) == Unsupported
    ensures var s := Run(a, fetch, now, st).state;
            Run(a + [u], fetch, now, st) == Completed(State(s.certsData, Publish(s.gauge, u.name, u.path, s.certsData)))
  {
    RunInOrder(a, [u], fetch, now, st);
  }

  /** Each recognised type string sends the source to its own decoder: the
      step succeeds exactly when that decoder does, and `certs_data` becomes
      the decoder's map. */
  lemma DispatchByTag(src: SourceConfig, fetch: SourceConfig -> Decoders.Content, now: int, st: State)
    ensures src.kind == "JKS" ==>
              && (Step(src, fetch, now, st).Success? <==> Decoders.JksDaysToExpire(fetch(src), now).Success?)
              && (Step(src, fetch, now, st).Success? ==>
                    Step(src, fetch, now, st).value.certsData == Decoders.JksDaysToExpire(fetch(src), now).value)
    ensures src.kind == "PEM" ==>
              && (Step(src, fetch, now, st).Success? <==> Decoders.PemDaysToExpire(src.path, fetch(src), now).Success?)
              && (Step(src, fetch, now, st).Success? ==>
                    Step(src, fetch, now, st).value.certsData == Decoders.PemDaysToExpire(src.path, fetch(src), now).value)
    ensures src.kind == "PKCS" ==>
              && (Step(src, fetch, now, st).Success? <==> Decoders.PkcsDaysToExpire(src.path, fetch(src), now).Success?)
              && (Step(src, fetch, now, st).Success? ==>
                    Step(src, fetch, now, st).value.certsData == Decoders.PkcsDaysToExpire(src.path, fetch(src), now).value)
    ensures src.kind == "URL" ==>
              && (Step(src, fetch, now, st).Success? <==> Decoders.RemoteExpiryDays(src.path, fetch(src), now).Success?)
              && (Step(src, fetch, now, st).Success? ==>
                    Step(src, fetch, now, st).value.certsData == Decoders.RemoteExpiryDays(src.path, fetch(src), now).value)
  {
  }

  /** The quirk end to end: a PEM source followed by a source of an unknown
      type leaves a cell labelled with the second source's name and path but
      the PEM file's path as alias, holding the PEM certificate's days. */
  lemma UnknownTypeInheritsPreviousAliases(pem: SourceConfig, u: SourceConfig,
                                           fetch: SourceConfig -> Decoders.Content, now: int, gauge: Gauge)
    requires pem.kind == "PEM" && TypeOf(u.kind) == Unsupported
    requires Decoders.PemDaysToExpire(pem.path, fetch(pem), now).Success?
    ensures Refresh([pem, u], fetch, now, gauge).Ok?
    ensures Labels(u.name, pem.path, u.path) in Refresh([pem, u], fetch, now, gauge).gauge
    ensures Refresh([pem, u], fetch, now, gauge).gauge[Labels(u.name, pem.path, u.path)]
            == Decoders.PemDaysToExpire(pem.path, fetch(pem), now).value[pem.path]
  {
    var st := State(map[], gauge);
    var data := Decoders.PemDaysToExpire(pem.path, fetch(pem), now).value;
    assert TypeOf(pem.kind) == Pem;
    var s1 := State(data, Publish(gauge, pem.name, pem.path, data));
    assert Step(pem, fetch, now, st) == Success(s1);
    var s2 := State(data, Publish(s1.gauge, u.name, u.path, data));
    assert Step(u, fetch, now, s1) == Success(s2);
    assert Run([u], fetch, now, s1) == Completed(s2) by {
      assert [u][1..] == [];
    }
    assert Run([pem, u], fetch, now, st) == Completed(s2) by {
      assert [pem, u][1..] == [u];
    }
    assert pem.path in data;
  }

  /** Three sources, the second of which raises: the route fails at index 1,
      the first source's cells are written, and the third is never
      visited. */
  lemma SecondOfThreeFails(s1: SourceConfig, s2: SourceConfig, s3: SourceConfig,
                           fetch: SourceConfig -> Decoders.Content, now: int, gauge: Gauge)
    requires TypeOf(s1.kind) != Unsupported && Decode(TypeOf(s1.kind), s1.path, fetch(s1), now).Success?
    requires TypeOf(s2.kind) != Unsupported && Decode(TypeOf(s2.kind), s2.path, fetch(s2), now).Failure?
    ensures Refresh([s1, s2, s3], fetch, now, gauge)
            == ServerError(1, Decode(TypeOf(s2.kind), s2.path, fetch(s2), now).error,
                           Publish(gauge, s1.name, s1.path, Decode(TypeOf(s1.kind), s1.path, fetch(s1), now).value))
  {
    var st := State(map[], gauge);
    var data := Decode(TypeOf(s1.kind), s1.path, fetch(s1), now).value;
    var st1 := State(data, Publish(gauge, s1.name, s1.path, data));
    assert Step(s1, fetch, now, st) == Success(st1);
    var e := Decode(TypeOf(s2.kind), s2.path, fetch(s2), now).error;
    assert Step(s2, fetch, now, st1) == Failure(e);
    assert Run([s2, s3], fetch, now, st1) == Aborted(st1.gauge, 0, e);
    assert Run([s1, s2, s3], fetch, now, st) == Aborted(st1.gauge, 1, e) by {
      assert [s1, s2, s3][1..] == [s2, s3];
    }
  }
}
