/**
 The Mastercard public keys manager (keys_manager.go) as a labelled step system.

 One constructor starts a worker and an updater. The worker obtains a first key set and then, in a select,
 hands its keys to a caller of Get, takes a newer set from the updater, or stops when the context is
 cancelled. The updater downloads on every tick. Each label is one atomic action of one goroutine, or one
 rendezvous on an unbuffered channel; the scheduler, the ticker and the network choose the labels.
 */
module KeysManager {
  import opened Wrappers

  /** A downloaded JSON web key set, by the IDs of its keys. */
  datatype KeySet = KeySet(kids: seq<string>)

  /** The cache file: absent, unparsable (what parsing leaves behind is `partial`), or a whole key set. */
  datatype File = Missing | Unparsable(partial: KeySet) | Holds(keys: KeySet)

  /** What the HTTP client brings back. */
  datatype Response = TransportError | Response(isError: bool, isJson: bool, keys: KeySet)

  /** The checks on a response; a nil result carries an error. Only a successful, JSON, non-empty answer is used, as it is. */
  function Download(resp: Response): (r: Option<KeySet>)
    ensures r.Some? ==> r.value.kids != [] && resp == Response(false, true, r.value)
    ensures r.None? ==> resp.TransportError? || resp != Response(false, true, resp.keys) || resp.keys.kids == []
  {
    if resp.TransportError? || resp.isError || !resp.isJson || resp.keys.kids == [] then None
    else Some(resp.keys)
  }

  datatype Main = BeforeWorker | BeforeUpdater | BeforeAdd | Returned

  datatype Worker =
    | NotStarted
    | Downloading
    | ReadingCache
    | OpeningCache
    | WritingCache
    | Looping
    | Exited

  datatype Updater =
    | NotStarted
    | Waiting
    | Downloading
    | OpeningCache(ks: KeySet)
    | WritingCache(ks: KeySet)
    | Sending(ks: KeySet)
    | StoppingTicker
    | Exited

  /** Whether a cache path is set, and how long the JSON text of a key set is. */
  datatype Config = Config(cachePathSet: bool, size: KeySet -> nat)

  /**
   keys is the worker's variable; None is a nil pointer. The last four fields record history: the keys the
   worker has had in its loop, the sets the updater has downloaded, the results of Get, and whether the
   first keys were obtained without error.
   */
  datatype State = State(
    main: Main,
    worker: Worker,
    updater: Updater,
    waitGroup: int,
    cancelled: bool,
    closing: nat,
    closed: nat,
    keys: Option<KeySet>,
    file: File,
    delivered: seq<Option<KeySet>>,
    downloads: seq<KeySet>,
    served: seq<Option<KeySet>>,
    firstOk: bool)

  datatype Label =
    | GoWorker
    | GoUpdater
    | Add
    | WorkerDownload(resp: Response)
    | WorkerReadCache(readable: bool)
    | WorkerOpenCache(ok: bool)
    | WorkerWriteCache(ok: bool)
    | Get
    | Deliver
    | WorkerDone
    | Tick
    | UpdaterDownload(resp: Response)
    | UpdaterOpenCache(ok: bool)
    | UpdaterWriteCache(ok: bool)
    | Abandon
    | UpdaterDone
    | StopTicker
    | Close
    | WaitReturns

  const EMPTY_SET := KeySet([])

  function Init(file: File): State {
    State(BeforeWorker, Worker.NotStarted, Updater.NotStarted, 0, false, 0, 0, None, file, [], [], [], false)
  }

  function EnterLoop(s: State, keys: Option<KeySet>, ok: bool): State {
    s.(worker := Looping, keys := keys, delivered := [keys], firstOk := ok)
  }

  /** Opening for writing truncates: until the data is written the file parses to nothing. */
  function Truncated(s: State, ok: bool): File {
    if ok then Unparsable(EMPTY_SET) else s.file
  }

  /** Data goes to the start of the file: a longer text written meanwhile by the other goroutine leaves its end behind. */
  function Overlay(cfg: Config, file: File, ks: KeySet): File {
    if file.Holds? && cfg.size(file.keys) > cfg.size(ks) then Unparsable(EMPTY_SET) else Holds(ks)
  }

  function Written(cfg: Config, s: State, ks: KeySet, ok: bool): File {
    if ok then Overlay(cfg, s.file, ks) else s.file
  }

  function StepMain(s: State, l: Label): Option<State> {
    match l
    case GoWorker =>
      if s.main != BeforeWorker then None
      else Some(s.(main := BeforeUpdater, worker := Worker.Downloading))
    case GoUpdater =>
      if s.main != BeforeUpdater then None
      else Some(s.(main := BeforeAdd, updater := Waiting))
    case Add =>
      if s.main != BeforeAdd then None
      else Some(s.(main := Returned, waitGroup := s.waitGroup + 2))
    case Close =>
      if s.main != Returned then None
      else Some(s.(cancelled := true, closing := s.closing + 1))
    case WaitReturns =>
      if s.closing == 0 || s.waitGroup != 0 then None
      else Some(s.(closing := s.closing - 1, closed := s.closed + 1))
    case _ => None
  }

  function StepWorker(cfg: Config, s: State, l: Label): Option<State> {
    match l
    case WorkerDownload(resp) =>
      if s.worker != Worker.Downloading then None
      else (
        match Download(resp)
        case None => Some(s.(worker := ReadingCache))
        case Some(ks) =>
          if cfg.cachePathSet then Some(s.(worker := Worker.OpeningCache, keys := Some(ks)))
          else Some(EnterLoop(s, Some(ks), true)))
    case WorkerReadCache(readable) =>
      if s.worker != ReadingCache then None
      else if !cfg.cachePathSet || !readable || s.file.Missing? then Some(EnterLoop(s, None, false))
      else if s.file.Unparsable? then Some(EnterLoop(s, Some(s.file.partial), false))
      else Some(EnterLoop(s, Some(s.file.keys), true))
    case WorkerOpenCache(ok) =>
      if s.worker != Worker.OpeningCache then None
      else if ok then Some(s.(worker := Worker.WritingCache, file := Truncated(s, ok)))
      else Some(EnterLoop(s, s.keys, true))
    case WorkerWriteCache(ok) =>
      if s.worker != Worker.WritingCache || s.keys.None? then None
      else Some(EnterLoop(s, s.keys, true).(file := Written(cfg, s, s.keys.value, ok)))
    case Get =>
      if s.worker != Looping || s.main != Returned then None
      else Some(s.(served := s.served + [s.keys]))
    case Deliver =>
      if s.worker != Looping || !s.updater.Sending? then None
      else
        var ks := s.updater.ks;
        Some(s.(keys := Some(ks), updater := Waiting, delivered := s.delivered + [Some(ks)]))
    case WorkerDone =>
      if s.worker != Looping || !s.cancelled then None
      else Some(s.(worker := Worker.Exited, waitGroup := s.waitGroup - 1))
    case _ => None
  }

  function StepUpdater(cfg: Config, s: State, l: Label): Option<State> {
    match l
    case Tick =>
      if s.updater != Waiting then None else Some(s.(updater := Updater.Downloading))
    case UpdaterDownload(resp) =>
      if s.updater != Updater.Downloading then None
      else (
        match Download(resp)
        case None => Some(s.(updater := Waiting))
        case Some(ks) =>
          var next := if cfg.cachePathSet then Updater.OpeningCache(ks) else Sending(ks);
          Some(s.(updater := next, downloads := s.downloads + [ks])))
    case UpdaterOpenCache(ok) =>
      if !s.updater.OpeningCache? then None
      else
        var ks := s.updater.ks;
        Some(s.(updater := if ok then Updater.WritingCache(ks) else Sending(ks), file := Truncated(s, ok)))
    case UpdaterWriteCache(ok) =>
      if !s.updater.WritingCache? then None
      else Some(s.(updater := Sending(s.updater.ks), file := Written(cfg, s, s.updater.ks, ok)))
    case Abandon =>
      if !s.updater.Sending? || !s.cancelled then None else Some(s.(updater := Waiting))
    case UpdaterDone =>
      if s.updater != Waiting || !s.cancelled then None
      else Some(s.(updater := StoppingTicker, waitGroup := s.waitGroup - 1))
    case StopTicker =>
      if s.updater != StoppingTicker then None else Some(s.(updater := Updater.Exited))
    case _ => None
  }

  /** The state after the labelled action, or None when that action is not possible here. */
  function Step(cfg: Config, s: State, l: Label): Option<State> {
    match StepMain(s, l)
    case Some(s') => Some(s')
    case None =>
      match StepWorker(cfg, s, l)
      case Some(s') => Some(s')
      case None => StepUpdater(cfg, s, l)
  }

  /** The state after a whole run of labels. */
  function Run(cfg: Config, s: State, ls: seq<Label>): Option<State>
    decreases ls
  {
    if ls == [] then Some(s)
    else
      match Step(cfg, s, ls[0])
      case None => None
      case Some(s') => Run(cfg, s', ls[1..])
  }

  ghost predicate Reachable(cfg: Config, s: State) {
    exists file, ls :: Run(cfg, Init(file), ls) == Some(s)
  }

  predicate Nonempty(keys: Option<KeySet>) {
    keys.Some? && keys.value.kids != []
  }

  // --------------------------------------------------------------------------------------------------
  // Order of delivery
  // --------------------------------------------------------------------------------------------------

  /** a is b with some elements left out. */
  predicate Subsequence<T(==)>(a: seq<T>, b: seq<T>) {
    if a == [] then true
    else if b == [] then false
    else
      || (a[|a| - 1] == b[|b| - 1] && Subsequence(a[..|a| - 1], b[..|b| - 1]))
      || Subsequence(a, b[..|b| - 1])
  }

  /** a repeats elements of b any number of times each, in b's order. */
  predicate Stutters<T(==)>(a: seq<T>, b: seq<T>)
    decreases |a| + |b|
  {
    if a == [] then true
    else if b == [] then false
    else
      || (a[|a| - 1] == b[|b| - 1] && Stutters(a[..|a| - 1], b))
      || Stutters(a, b[..|b| - 1])
  }

  lemma StuttersGrow<T>(a: seq<T>, b: seq<T>, x: T)
    requires Stutters(a, b)
    ensures Stutters(a, b + [x])
  {
    assert (b + [x])[..|b|] == b;
  }

  lemma StuttersRepeat<T>(a: seq<T>, b: seq<T>)
    requires Stutters(a, b) && b != []
    ensures Stutters(a + [b[|b| - 1]], b)
  {
    assert (a + [b[|b| - 1]])[..|a|] == a;
  }

  lemma SubsequenceGrow<T>(a: seq<T>, b: seq<T>, x: T)
    requires Subsequence(a, b)
    ensures Subsequence(a, b + [x])
  {
    assert (b + [x])[..|b|] == b;
  }

  lemma SubsequenceBoth<T>(a: seq<T>, b: seq<T>, x: T)
    requires Subsequence(a, b)
    ensures Subsequence(a + [x], b + [x])
  {
    assert (a + [x])[..|a|] == a && (b + [x])[..|b|] == b;
  }

  /** Indices into b that never go back. */
  predicate Placed<T(==)>(a: seq<T>, b: seq<T>, at: seq<nat>) {
    && |at| == |a|
    && (forall i | 0 <= i < |a| :: at[i] < |b| && a[i] == b[at[i]])
    && (forall i, j | 0 <= i < j < |a| :: at[i] <= at[j])
  }

  lemma {:induction false} StuttersPlaced<T>(a: seq<T>, b: seq<T>) returns (at: seq<nat>)
    requires Stutters(a, b)
    ensures Placed(a, b, at)
    decreases |a| + |b|
  {
    if a == [] {
      at := [];
    } else if a[|a| - 1] == b[|b| - 1] && Stutters(a[..|a| - 1], b) {
      var front := StuttersPlaced(a[..|a| - 1], b);
      at := front + [|b| - 1];
    } else {
      at := StuttersPlaced(a, b[..|b| - 1]);
    }
  }

  // --------------------------------------------------------------------------------------------------
  // The invariant of every run
  // --------------------------------------------------------------------------------------------------

  function Exits(s: State): nat {
    (if s.worker.Exited? then 1 else 0) + (if s.updater.StoppingTicker? || s.updater.Exited? then 1 else 0)
  }

  /** The set the updater holds and has not yet handed over. */
  function Pending(s: State): seq<KeySet> {
    match s.updater
    case OpeningCache(ks) => [ks]
    case WritingCache(ks) => [ks]
    case Sending(ks) => [ks]
    case _ => []
  }

  function Sets(keys: seq<Option<KeySet>>): (r: seq<KeySet>)
    requires forall k | k in keys :: k.Some?
    ensures |r| == |keys|
  {
    seq(|keys|, i requires 0 <= i < |keys| => assert keys[i] in keys; keys[i].value)
  }

  predicate InLoop(s: State) {
    s.worker.Looping? || s.worker.Exited?
  }

  predicate ControlInv(s: State) {
    && (s.worker.NotStarted? <==> s.main.BeforeWorker?)
    && (s.updater.NotStarted? <==> s.main.BeforeWorker? || s.main.BeforeUpdater?)
    && s.waitGroup == (if s.main.Returned? then 2 else 0) - Exits(s)
    && (s.cancelled ==> s.main.Returned?)
    && (Exits(s) > 0 ==> s.cancelled)
    && (s.closing + s.closed > 0 ==> s.cancelled)
    && (s.closed > 0 ==> s.waitGroup == 0)
    && (s.worker.OpeningCache? || s.worker.WritingCache? ==> Nonempty(s.keys))
  }

  predicate DeliveryInv(s: State) {
    && (InLoop(s) <==> s.delivered != [])
    && (InLoop(s) ==> s.keys == s.delivered[|s.delivered| - 1])
    && (forall i | 1 <= i < |s.delivered| :: Nonempty(s.delivered[i]))
    && Stutters(s.served, s.delivered)
  }

  /** The updates the worker has received. */
  function Received(s: State): seq<KeySet>
    requires DeliveryInv(s)
  {
    if s.delivered == [] then [] else Sets(s.delivered[1..])
  }

  predicate DownloadInv(s: State)
    requires DeliveryInv(s)
  {
    && (forall ks | ks in s.downloads :: ks.kids != [])
    && |Pending(s)| <= |s.downloads|
    && var handled := s.downloads[..|s.downloads| - |Pending(s)|];
       && s.downloads == handled + Pending(s)
       && Subsequence(Received(s), handled)
       && (!s.cancelled ==> Received(s) == handled)
  }

  predicate Inv(s: State) {
    ControlInv(s) && HistoryInv(s)
  }

  lemma InitInv(file: File)
    ensures Inv(Init(file))
  {
  }

  predicate HistoryInv(s: State) {
    DeliveryInv(s) && DownloadInv(s)
  }

  /** The history is about these fields only. */
  predicate SameHistory(s: State, s': State) {
    && s'.delivered == s.delivered && s'.served == s.served && s'.downloads == s.downloads
    && InLoop(s') == InLoop(s) && Pending(s') == Pending(s)
    && (InLoop(s) ==> s'.keys == s.keys)
    && (s.cancelled ==> s'.cancelled)
  }

  lemma SameHistoryInv(s: State, s': State)
    requires HistoryInv(s) && SameHistory(s, s')
    ensures HistoryInv(s')
  {
    assert Received(s') == Received(s);
  }

  lemma MainControl(s: State, l: Label)
    requires ControlInv(s) && StepMain(s, l).Some?
    ensures ControlInv(StepMain(s, l).value) && SameHistory(s, StepMain(s, l).value)
  {
  }

  lemma WorkerControl(cfg: Config, s: State, l: Label)
    requires ControlInv(s) && StepWorker(cfg, s, l).Some?
    ensures ControlInv(StepWorker(cfg, s, l).value)
  {
  }

  lemma UpdaterControl(cfg: Config, s: State, l: Label)
    requires ControlInv(s) && StepUpdater(cfg, s, l).Some?
    ensures ControlInv(StepUpdater(cfg, s, l).value)
  {
  }

  /** Entering the loop starts the history of deliveries. */
  lemma EnterLoopHistory(s: State, s': State)
    requires HistoryInv(s) && !InLoop(s)
    requires InLoop(s') && s'.delivered == [s'.keys]
    requires s'.served == s.served && s'.downloads == s.downloads && s'.updater == s.updater && s'.cancelled == s.cancelled
    ensures HistoryInv(s')
  {
    assert Received(s') == [] == Received(s);
  }

  lemma GetDelivery(s: State, s': State)
    requires DeliveryInv(s) && InLoop(s) && s' == s.(served := s.served + [s.keys])
    ensures DeliveryInv(s') && Received(s') == Received(s)
  {
    StuttersRepeat(s.served, s.delivered);
  }

  lemma GetHistory(s: State, s': State)
    requires HistoryInv(s) && InLoop(s) && s' == s.(served := s.served + [s.keys])
    ensures HistoryInv(s')
  {
    GetDelivery(s, s');
  }

  lemma ReceiveNext(s: State, s': State, ks: KeySet)
    requires DeliveryInv(s) && InLoop(s) && ks.kids != []
    requires s'.delivered == s.delivered + [Some(ks)] && s'.keys == Some(ks)
    requires s'.served == s.served && s'.worker == s.worker
    ensures DeliveryInv(s') && Received(s') == Received(s) + [ks]
  {
    StuttersGrow(s.served, s.delivered, Some(ks));
    assert s'.delivered[1..] == s.delivered[1..] + [Some(ks)];
  }

  lemma DeliverHistory(s: State, s': State, ks: KeySet)
    requires HistoryInv(s) && InLoop(s) && Pending(s) == [ks] && Pending(s') == []
    requires s'.delivered == s.delivered + [Some(ks)] && s'.keys == Some(ks)
    requires s'.served == s.served && s'.worker == s.worker
    requires s'.downloads == s.downloads && s'.cancelled == s.cancelled
    ensures HistoryInv(s')
  {
    var handled := s.downloads[..|s.downloads| - 1];
    assert s.downloads == handled + [ks];
    assert ks in s.downloads;
    ReceiveNext(s, s', ks);
    var received := Received(s);
    assert Subsequence(received + [ks], handled + [ks]) by {
      SubsequenceBoth(received, handled, ks);
    }
    assert s'.downloads[..|s'.downloads|] == s.downloads;
    assert Received(s') == received + [ks];
  }

  lemma WorkerSameHistory(cfg: Config, s: State, l: Label)
    requires StepWorker(cfg, s, l).Some? && l != Get && l != Deliver && InLoop(StepWorker(cfg, s, l).value) == InLoop(s)
    ensures SameHistory(s, StepWorker(cfg, s, l).value)
  {
  }

  lemma WorkerEnters(cfg: Config, s: State, l: Label)
    requires StepWorker(cfg, s, l).Some? && InLoop(StepWorker(cfg, s, l).value) && !InLoop(s)
    ensures var s' := StepWorker(cfg, s, l).value;
      && s'.delivered == [s'.keys] && s'.served == s.served && s'.downloads == s.downloads
      && s'.updater == s.updater && s'.cancelled == s.cancelled
  {
  }

  lemma WorkerEffect(cfg: Config, s: State, l: Label)
    requires StepWorker(cfg, s, l).Some? && l in {Get, Deliver}
    ensures var s' := StepWorker(cfg, s, l).value;
      && InLoop(s) && s'.worker == s.worker && s'.downloads == s.downloads && s'.cancelled == s.cancelled
      && (l == Get ==> s' == s.(served := s.served + [s.keys]))
      && (l == Deliver ==>
            && Pending(s) == [s.updater.ks] && Pending(s') == [] && s'.served == s.served
            && s'.keys == Some(s.updater.ks) && s'.delivered == s.delivered + [Some(s.updater.ks)])
  {
  }

  lemma WorkerHistory(cfg: Config, s: State, l: Label)
    requires HistoryInv(s) && StepWorker(cfg, s, l).Some?
    ensures HistoryInv(StepWorker(cfg, s, l).value)
  {
    var s' := StepWorker(cfg, s, l).value;
    if l == Get {
      WorkerEffect(cfg, s, l);
      GetHistory(s, s');
    } else if l == Deliver {
      WorkerEffect(cfg, s, l);
      DeliverHistory(s, s', s.updater.ks);
    } else if InLoop(s') && !InLoop(s) {
      WorkerEnters(cfg, s, l);
      EnterLoopHistory(s, s');
    } else {
      WorkerSameHistory(cfg, s, l);
      SameHistoryInv(s, s');
    }
  }

  lemma AbandonHistory(s: State, s': State, ks: KeySet)
    requires HistoryInv(s) && Pending(s) == [ks] && Pending(s') == [] && s'.cancelled
    requires s'.delivered == s.delivered && s'.served == s.served && s'.downloads == s.downloads
    requires s'.worker == s.worker && s'.keys == s.keys
    ensures HistoryInv(s')
  {
    var handled := s.downloads[..|s.downloads| - 1];
    assert s.downloads == handled + [ks];
    assert Received(s') == Received(s);
    SubsequenceGrow(Received(s), handled, ks);
    assert s'.downloads[..|s'.downloads|] == s'.downloads;
  }

  lemma DownloadedHistory(s: State, s': State, ks: KeySet)
    requires HistoryInv(s) && Pending(s) == []
    requires ks.kids != [] && Pending(s') == [ks] && s'.downloads == s.downloads + [ks]
    requires s'.worker == s.worker && s'.keys == s.keys && s'.cancelled == s.cancelled
    requires s'.delivered == s.delivered && s'.served == s.served
    ensures HistoryInv(s')
  {
    assert Received(s') == Received(s);
    assert s.downloads[..|s.downloads|] == s.downloads == s'.downloads[..|s.downloads|];
  }

  lemma UpdaterSameHistory(cfg: Config, s: State, l: Label)
    requires StepUpdater(cfg, s, l).Some? && l != Abandon && (l.UpdaterDownload? ==> Download(l.resp).None?)
    ensures SameHistory(s, StepUpdater(cfg, s, l).value)
  {
  }

  lemma UpdaterEffect(cfg: Config, s: State, l: Label)
    requires StepUpdater(cfg, s, l).Some?
    ensures var s' := StepUpdater(cfg, s, l).value;
      && s'.worker == s.worker && s'.keys == s.keys && s'.delivered == s.delivered && s'.served == s.served
      && s'.cancelled == s.cancelled
      && (l == Abandon ==>
            s.cancelled && s'.downloads == s.downloads && Pending(s) == [s.updater.ks] && Pending(s') == [])
      && (l.UpdaterDownload? && Download(l.resp).Some? ==>
            var ks := Download(l.resp).value;
            s'.downloads == s.downloads + [ks] && Pending(s) == [] && Pending(s') == [ks])
  {
  }

  lemma UpdaterHistory(cfg: Config, s: State, l: Label)
    requires HistoryInv(s) && StepUpdater(cfg, s, l).Some?
    ensures HistoryInv(StepUpdater(cfg, s, l).value)
  {
    var s' := StepUpdater(cfg, s, l).value;
    UpdaterEffect(cfg, s, l);
    if l == Abandon {
      AbandonHistory(s, s', s.updater.ks);
    } else if l.UpdaterDownload? && Download(l.resp).Some? {
      DownloadedHistory(s, s', Download(l.resp).value);
    } else {
      UpdaterSameHistory(cfg, s, l);
      SameHistoryInv(s, s');
    }
  }

  lemma StepInv(cfg: Config, s: State, l: Label)
    requires Inv(s) && Step(cfg, s, l).Some?
    ensures Inv(Step(cfg, s, l).value)
  {
    if StepMain(s, l).Some? {
      MainControl(s, l);
      SameHistoryInv(s, StepMain(s, l).value);
    } else if StepWorker(cfg, s, l).Some? {
      WorkerControl(cfg, s, l);
      WorkerHistory(cfg, s, l);
    } else {
      UpdaterControl(cfg, s, l);
      UpdaterHistory(cfg, s, l);
    }
  }

  lemma {:induction false} RunInv(cfg: Config, s: State, ls: seq<Label>)
    requires Inv(s) && Run(cfg, s, ls).Some?
    ensures Inv(Run(cfg, s, ls).value)
    decreases ls
  {
    if ls != [] {
      StepInv(cfg, s, ls[0]);
      RunInv(cfg, Step(cfg, s, ls[0]).value, ls[1..]);
    }
  }

  lemma ReachableInv(cfg: Config, s: State)
    requires Reachable(cfg, s)
    ensures Inv(s)
  {
    var file, ls :| Run(cfg, Init(file), ls) == Some(s);
    InitInv(file);
    RunInv(cfg, Init(file), ls);
  }

  // --------------------------------------------------------------------------------------------------
  // Order of what Get returns
  // --------------------------------------------------------------------------------------------------

  /**
   In every interleaving the results of Get are taken, in order and never going back, from the worker's
   deliveries: its first keys, then each update as it was received.
   */
  lemma ServedInOrder(cfg: Config, s: State) returns (at: seq<nat>)
    requires Reachable(cfg, s)
    ensures Placed(s.served, s.delivered, at)
  {
    ReachableInv(cfg, s);
    at := StuttersPlaced(s.served, s.delivered);
  }

  lemma PlacedNonempty(a: seq<Option<KeySet>>, b: seq<Option<KeySet>>, at: seq<nat>, i: nat, j: nat)
    requires Placed(a, b, at) && i <= j < |a| && Nonempty(a[i])
    requires forall k | 1 <= k < |b| :: Nonempty(b[k])
    ensures Nonempty(a[j])
  {
    if i < j {
      assert at[i] <= at[j];
    }
  }

  /** Once a non-empty set has been served, no later Get returns nil or an empty set. */
  lemma NonemptyStaysNonempty(cfg: Config, s: State, i: nat, j: nat)
    requires Reachable(cfg, s)
    requires i <= j < |s.served| && Nonempty(s.served[i])
    ensures Nonempty(s.served[j])
  {
    ReachableInv(cfg, s);
    var at := ServedInOrder(cfg, s);
    PlacedNonempty(s.served, s.delivered, at, i, j);
  }

  function Somes(sets: seq<KeySet>): seq<Option<KeySet>> {
    seq(|sets|, i requires 0 <= i < |sets| => Some(sets[i]))
  }

  /**
   Updates reach the worker in the order they were downloaded. Until Close cancels none is lost: what was
   downloaded is what was received, then the one set the updater is still holding.
   */
  lemma UpdatesFollowDownloads(cfg: Config, s: State) returns (received: seq<KeySet>)
    requires Reachable(cfg, s)
    ensures s.delivered == [] ==> received == []
    ensures s.delivered != [] ==> s.delivered[1..] == Somes(received)
    ensures Subsequence(received, s.downloads)
    ensures !s.cancelled ==> s.downloads == received + Pending(s)
  {
    ReachableInv(cfg, s);
    received := Received(s);
    var handled := s.downloads[..|s.downloads| - |Pending(s)|];
    if Pending(s) != [] {
      SubsequenceGrow(received, handled, Pending(s)[0]);
      assert Pending(s) == [Pending(s)[0]];
    } else {
      assert s.downloads == handled;
    }
  }

  // --------------------------------------------------------------------------------------------------
  // Shutdown
  // --------------------------------------------------------------------------------------------------

  /** Done never outruns Add, although Add comes after the goroutines are started. */
  lemma WaitGroupNeverNegative(cfg: Config, s: State)
    requires Reachable(cfg, s)
    ensures 0 <= s.waitGroup <= 2
    ensures s.main.Returned? && s.waitGroup == 0 <==> s.worker.Exited? && (s.updater.StoppingTicker? || s.updater.Exited?)
  {
    ReachableInv(cfg, s);
  }

  /** How many more actions of the two goroutines suffice to stop them. */
  function StepsToExit(s: State): nat {
    (match s.worker
     case NotStarted => 0
     case Downloading => 3
     case ReadingCache => 2
     case OpeningCache => 3
     case WritingCache => 2
     case Looping => 1
     case Exited => 0)
    + (match s.updater
       case NotStarted => 0
       case Waiting => 2
       case Downloading => 3
       case OpeningCache(_) => 5
       case WritingCache(_) => 4
       case Sending(_) => 3
       case StoppingTicker => 1
       case Exited => 0)
  }

  /** Nobody is stuck after Close cancels: while a goroutine is left, one of them can act and come closer to its end. */
  lemma ShutdownProgress(cfg: Config, s: State) returns (l: Label)
    requires ControlInv(s) && s.cancelled
    requires !(s.worker.Exited? && s.updater.Exited?)
    ensures Step(cfg, s, l).Some?
    ensures Step(cfg, s, l).value.cancelled && StepsToExit(Step(cfg, s, l).value) < StepsToExit(s)
    ensures l !in {Get, Deliver, Close, WaitReturns, Tick}
  {
    match s.worker {
      case Downloading => l := WorkerDownload(TransportError);
      case ReadingCache => l := WorkerReadCache(false);
      case OpeningCache => l := WorkerOpenCache(false);
      case WritingCache => l := WorkerWriteCache(false);
      case Looping => l := WorkerDone;
      case _ =>
        match s.updater {
          case Downloading => l := UpdaterDownload(TransportError);
          case OpeningCache(_) => l := UpdaterOpenCache(false);
          case WritingCache(_) => l := UpdaterWriteCache(false);
          case Sending(_) => l := Abandon;
          case StoppingTicker => l := StopTicker;
          case _ => l := UpdaterDone;
        }
    }
  }

  lemma {:induction false} ShutdownPath(cfg: Config, s: State) returns (ls: seq<Label>)
    requires ControlInv(s) && s.cancelled
    ensures |ls| <= StepsToExit(s)
    ensures Run(cfg, s, ls).Some?
    ensures var s' := Run(cfg, s, ls).value;
      s'.worker.Exited? && s'.updater.Exited? && s'.waitGroup == 0 && s'.closing == s.closing
    decreases StepsToExit(s)
  {
    if s.worker.Exited? && s.updater.Exited? {
      ls := [];
    } else {
      var l := ShutdownProgress(cfg, s);
      var s' := Step(cfg, s, l).value;
      StepControl(cfg, s, l);
      var rest := ShutdownPath(cfg, s');
      ls := [l] + rest;
      assert ls[1..] == rest;
    }
  }

  lemma StepControl(cfg: Config, s: State, l: Label)
    requires ControlInv(s) && Step(cfg, s, l).Some?
    ensures ControlInv(Step(cfg, s, l).value)
    ensures l !in {Close, WaitReturns} ==> Step(cfg, s, l).value.closing == s.closing
  {
    if StepMain(s, l).Some? {
      MainControl(s, l);
    } else if StepWorker(cfg, s, l).Some? {
      WorkerControl(cfg, s, l);
    } else {
      UpdaterControl(cfg, s, l);
    }
  }

  /** How many more actions the two goroutines can take without another tick, whatever their downloads and writes bring. */
  function ActionsLeft(s: State): nat {
    (match s.worker
     case NotStarted => 0
     case Downloading => 4
     case ReadingCache => 2
     case OpeningCache => 3
     case WritingCache => 2
     case Looping => 1
     case Exited => 0)
    + (match s.updater
       case NotStarted => 0
       case Waiting => 2
       case Downloading => 6
       case OpeningCache(_) => 5
       case WritingCache(_) => 4
       case Sending(_) => 3
       case StoppingTicker => 1
       case Exited => 0)
  }

  /** Labels in which some goroutine moves on; serving a Get and waiting for Close change nothing it does. */
  predicate Action(l: Label) {
    l !in {Get, Tick, Close, WaitReturns}
  }

  lemma EveryActionCounts(cfg: Config, s: State, l: Label)
    requires ControlInv(s) && s.cancelled && Step(cfg, s, l).Some?
    ensures Step(cfg, s, l).value.cancelled
    ensures Action(l) ==> ActionsLeft(Step(cfg, s, l).value) < ActionsLeft(s)
    ensures l == Tick ==> ActionsLeft(Step(cfg, s, l).value) == ActionsLeft(s) + 4
    ensures !Action(l) && l != Tick ==> ActionsLeft(Step(cfg, s, l).value) == ActionsLeft(s)
  {
    if StepMain(s, l).Some? {
      MainCounts(s, l);
    } else if StepWorker(cfg, s, l).Some? {
      WorkerCounts(cfg, s, l);
    } else {
      UpdaterCounts(cfg, s, l);
    }
  }

  lemma MainCounts(s: State, l: Label)
    requires ControlInv(s) && s.cancelled && StepMain(s, l).Some?
    ensures !Action(l) && l != Tick && ActionsLeft(StepMain(s, l).value) == ActionsLeft(s)
    ensures StepMain(s, l).value.cancelled
  {
  }

  lemma WorkerCounts(cfg: Config, s: State, l: Label)
    requires StepWorker(cfg, s, l).Some?
    ensures l != Tick && if Action(l) then ActionsLeft(StepWorker(cfg, s, l).value) < ActionsLeft(s)
      else ActionsLeft(StepWorker(cfg, s, l).value) == ActionsLeft(s)
    ensures StepWorker(cfg, s, l).value.cancelled == s.cancelled
  {
  }

  lemma UpdaterCounts(cfg: Config, s: State, l: Label)
    requires StepUpdater(cfg, s, l).Some?
    ensures if l == Tick then ActionsLeft(StepUpdater(cfg, s, l).value) == ActionsLeft(s) + 4
      else Action(l) && ActionsLeft(StepUpdater(cfg, s, l).value) < ActionsLeft(s)
    ensures StepUpdater(cfg, s, l).value.cancelled == s.cancelled
  {
  }

  function Actions(ls: seq<Label>): nat {
    if ls == [] then 0 else (if Action(ls[0]) then 1 else 0) + Actions(ls[1..])
  }

  function Ticks(ls: seq<Label>): nat {
    if ls == [] then 0 else (if ls[0] == Tick then 1 else 0) + Ticks(ls[1..])
  }

  lemma {:induction false} ActionsBounded(cfg: Config, s: State, ls: seq<Label>)
    requires ControlInv(s) && s.cancelled && Run(cfg, s, ls).Some?
    ensures var s' := Run(cfg, s, ls).value;
      ControlInv(s') && s'.cancelled && Actions(ls) + ActionsLeft(s') <= ActionsLeft(s) + 4 * Ticks(ls)
    decreases ls
  {
    if ls != [] {
      EveryActionCounts(cfg, s, ls[0]);
      StepControl(cfg, s, ls[0]);
      ActionsBounded(cfg, Step(cfg, s, ls[0]).value, ls[1..]);
    }
  }

  /**
   After Close has cancelled, every run ends by itself, whatever downloads, reads and writes bring: it has at
   most ten actions, and four more for each tick that fires. Where it can go no further both goroutines have
   stopped, and a waiting Close can return.
   */
  lemma ShutdownBounded(cfg: Config, s: State, ls: seq<Label>)
    requires Reachable(cfg, s) && s.cancelled && Run(cfg, s, ls).Some?
    ensures Actions(ls) <= 10 + 4 * Ticks(ls)
    ensures var s' := Run(cfg, s, ls).value;
      (forall l | Action(l) :: Step(cfg, s', l).None?) ==>
        s'.worker.Exited? && s'.updater.Exited? && (s'.closing > 0 ==> Step(cfg, s', WaitReturns).Some?)
  {
    ReachableInv(cfg, s);
    ActionsBounded(cfg, s, ls);
    StuckMeansStopped(cfg, Run(cfg, s, ls).value);
  }

  lemma StuckMeansStopped(cfg: Config, s: State)
    requires ControlInv(s) && s.cancelled
    ensures (forall l | Action(l) :: Step(cfg, s, l).None?) ==> s.worker.Exited? && s.updater.Exited? && s.waitGroup == 0
  {
    if !(s.worker.Exited? && s.updater.Exited?) {
      var l := ShutdownProgress(cfg, s);
      assert Action(l) && Step(cfg, s, l).Some?;
    }
  }

  /** From every reachable state in which Close has cancelled, eight steps suffice to stop both goroutines and let Close return. */
  lemma CloseCanReturn(cfg: Config, s: State) returns (ls: seq<Label>)
    requires Reachable(cfg, s) && s.cancelled
    ensures |ls| <= 8 && Run(cfg, s, ls).Some?
    ensures var s' := Run(cfg, s, ls).value;
      && s'.worker.Exited? && s'.updater.Exited?
      && (s.closing > 0 ==> Step(cfg, s', WaitReturns).Some?)
  {
    ReachableInv(cfg, s);
    ls := ShutdownPath(cfg, s);
  }

  /** Once a Close has returned, the manager is quiet for good: no download, no cache write, no Get is served. */
  lemma {:induction false} QuietAfterClose(cfg: Config, s: State, ls: seq<Label>)
    requires ControlInv(s) && s.closed > 0
    requires Run(cfg, s, ls).Some?
    ensures forall l | l in ls :: l in {StopTicker, Close, WaitReturns}
    ensures var s' := Run(cfg, s, ls).value;
      s'.served == s.served && s'.downloads == s.downloads && s'.file == s.file
    decreases ls
  {
    if ls != [] {
      var s' := Step(cfg, s, ls[0]).value;
      StepControl(cfg, s, ls[0]);
      assert ls[0] in {StopTicker, Close, WaitReturns};
      QuietAfterClose(cfg, s', ls[1..]);
      assert ls == [ls[0]] + ls[1..];
    }
  }

  lemma ClosedIsQuiet(cfg: Config, s: State, ls: seq<Label>)
    requires Reachable(cfg, s) && s.closed > 0
    requires Run(cfg, s, ls).Some?
    ensures forall l | l in ls :: l in {StopTicker, Close, WaitReturns}
    ensures Run(cfg, s, ls).value.served == s.served && Run(cfg, s, ls).value.file == s.file
  {
    ReachableInv(cfg, s);
    QuietAfterClose(cfg, s, ls);
  }

  // --------------------------------------------------------------------------------------------------
  // The cache file
  // --------------------------------------------------------------------------------------------------

  predicate WriteSucceeds(l: Label) {
    match l
    case WorkerOpenCache(ok) => ok
    case WorkerWriteCache(ok) => ok
    case UpdaterOpenCache(ok) => ok
    case UpdaterWriteCache(ok) => ok
    case _ => true
  }

  predicate WritesSucceed(ls: seq<Label>) {
    forall l | l in ls :: WriteSucceeds(l)
  }

  /**
   Where the worker's one write falls: before the updater last opened the file (or nowhere), between that
   opening and the updater's write, or after everything the updater has done to the file.
   */
  datatype Placement = WorkerFirst | Overlapping | WorkerLast

  function NextPlacement(place: Placement, l: Label): Placement {
    match l
    case WorkerWriteCache(_) => WorkerLast
    case UpdaterOpenCache(_) => WorkerFirst
    case UpdaterWriteCache(_) => if place == WorkerLast then Overlapping else place
    case _ => place
  }

  function PlaceFrom(place: Placement, ls: seq<Label>): Placement
    decreases ls
  {
    if ls == [] then place else PlaceFrom(NextPlacement(place, ls[0]), ls[1..])
  }

  function Place(ls: seq<Label>): Placement {
    PlaceFrom(WorkerFirst, ls)
  }

  predicate UpdaterTouches(l: Label) {
    l.UpdaterOpenCache? || l.UpdaterWriteCache?
  }

  predicate Untouched(ls: seq<Label>) {
    forall l | l in ls :: !UpdaterTouches(l)
  }

  /** The worker writes, and afterwards the updater neither opens nor writes the file. */
  predicate WorkerWroteLast(ls: seq<Label>) {
    exists i | 0 <= i < |ls| :: ls[i].WorkerWriteCache? && Untouched(ls[i + 1..])
  }

  lemma WroteLastFirst(ls: seq<Label>)
    requires ls != []
    ensures WorkerWroteLast(ls) <==> WorkerWroteLast(ls[1..]) || (ls[0].WorkerWriteCache? && Untouched(ls[1..]))
  {
    var rest := ls[1..];
    if WorkerWroteLast(rest) {
      var i :| 0 <= i < |rest| && rest[i].WorkerWriteCache? && Untouched(rest[i + 1..]);
      assert ls[i + 1] == rest[i] && ls[i + 2..] == rest[i + 1..];
    }
    if WorkerWroteLast(ls) {
      var i :| 0 <= i < |ls| && ls[i].WorkerWriteCache? && Untouched(ls[i + 1..]);
      if i > 0 {
        assert ls[i] == rest[i - 1] && ls[i + 1..] == rest[i..];
      }
    }
  }

  lemma UntouchedFirst(ls: seq<Label>)
    requires ls != []
    ensures Untouched(ls) <==> !UpdaterTouches(ls[0]) && Untouched(ls[1..])
  {
    assert ls == [ls[0]] + ls[1..];
  }

  lemma {:induction false} WorkerLastFrom(place: Placement, ls: seq<Label>)
    ensures PlaceFrom(place, ls) == WorkerLast <==> WorkerWroteLast(ls) || (place == WorkerLast && Untouched(ls))
    decreases ls
  {
    if ls != [] {
      WorkerLastFrom(NextPlacement(place, ls[0]), ls[1..]);
      WroteLastFirst(ls);
      UntouchedFirst(ls);
    }
  }

  predicate NeitherOpensNorWorkerWrites(ls: seq<Label>) {
    forall l | l in ls :: !l.UpdaterOpenCache? && !l.WorkerWriteCache?
  }

  predicate UpdaterWritesIn(ls: seq<Label>) {
    exists l | l in ls :: l.UpdaterWriteCache?
  }

  /** The worker writes for the last time, and afterwards the updater writes without having opened the file anew. */
  predicate WorkerWroteBetween(ls: seq<Label>) {
    exists i | 0 <= i < |ls| ::
      ls[i].WorkerWriteCache? && NeitherOpensNorWorkerWrites(ls[i + 1..]) && UpdaterWritesIn(ls[i + 1..])
  }

  lemma WroteBetweenFirst(ls: seq<Label>)
    requires ls != []
    ensures WorkerWroteBetween(ls) <==>
      || WorkerWroteBetween(ls[1..])
      || (ls[0].WorkerWriteCache? && NeitherOpensNorWorkerWrites(ls[1..]) && UpdaterWritesIn(ls[1..]))
  {
    var rest := ls[1..];
    if WorkerWroteBetween(rest) {
      var i :| 0 <= i < |rest| &&
        rest[i].WorkerWriteCache? && NeitherOpensNorWorkerWrites(rest[i + 1..]) && UpdaterWritesIn(rest[i + 1..]);
      assert ls[i + 1] == rest[i] && ls[i + 2..] == rest[i + 1..];
    }
    if WorkerWroteBetween(ls) {
      var i :| 0 <= i < |ls| &&
        ls[i].WorkerWriteCache? && NeitherOpensNorWorkerWrites(ls[i + 1..]) && UpdaterWritesIn(ls[i + 1..]);
      if i > 0 {
        assert ls[i] == rest[i - 1] && ls[i + 1..] == rest[i..];
      }
    }
  }

  lemma QuietFirst(ls: seq<Label>)
    requires ls != []
    ensures NeitherOpensNorWorkerWrites(ls) <==>
      !ls[0].UpdaterOpenCache? && !ls[0].WorkerWriteCache? && NeitherOpensNorWorkerWrites(ls[1..])
    ensures UpdaterWritesIn(ls) <==> ls[0].UpdaterWriteCache? || UpdaterWritesIn(ls[1..])
  {
    assert ls == [ls[0]] + ls[1..];
  }

  lemma {:induction false} OverlappingFrom(place: Placement, ls: seq<Label>)
    ensures PlaceFrom(place, ls) == Overlapping <==>
      || WorkerWroteBetween(ls)
      || (NeitherOpensNorWorkerWrites(ls) && (place == Overlapping || (place == WorkerLast && UpdaterWritesIn(ls))))
    decreases ls
  {
    if ls != [] {
      OverlappingFrom(NextPlacement(place, ls[0]), ls[1..]);
      WroteBetweenFirst(ls);
      QuietFirst(ls);
    }
  }

  /** What the three placements say about a run as a whole. */
  lemma PlaceOfRun(ls: seq<Label>)
    ensures Place(ls) == WorkerLast <==> WorkerWroteLast(ls)
    ensures Place(ls) == Overlapping <==> WorkerWroteBetween(ls)
  {
    WorkerLastFrom(WorkerFirst, ls);
    OverlappingFrom(WorkerFirst, ls);
  }

  /** The updater's downloads whose writing to the cache is over. */
  function Stored(s: State): seq<KeySet> {
    if (s.updater.OpeningCache? || s.updater.WritingCache?) && s.downloads != []
    then s.downloads[..|s.downloads| - 1]
    else s.downloads
  }

  function Newest(s: State): KeySet
    requires Stored(s) != []
  {
    Stored(s)[|Stored(s)| - 1]
  }

  /** The worker's first keys. */
  function First(s: State): KeySet {
    if s.delivered != [] && s.delivered[0].Some? then s.delivered[0].value else EMPTY_SET
  }

  /** While it writes, the updater holds the set it downloaded last. */
  predicate UpdaterHolds(s: State) {
    s.updater.OpeningCache? || s.updater.WritingCache? ==>
      s.downloads != [] && s.downloads[|s.downloads| - 1] == s.updater.ks
  }

  predicate FileInv(cfg: Config, s: State, place: Placement) {
    && (!InLoop(s) ==> place == WorkerFirst)
    && (InLoop(s) && s.firstOk ==> s.delivered != [] && s.delivered[0].Some?)
    && UpdaterHolds(s)
    && if s.updater.WritingCache? then
         || (place == WorkerFirst && s.file == Unparsable(EMPTY_SET))
         || (place == WorkerLast && |s.delivered| == 1 && s.file == Holds(First(s)))
       else if s.worker.WritingCache? then
         s.file == Unparsable(EMPTY_SET) || (Stored(s) != [] && s.file == Holds(Newest(s)))
       else if Stored(s) != [] then
         match place
         case WorkerFirst => s.file == Holds(Newest(s))
         case Overlapping => s.file == Overlay(cfg, Holds(First(s)), Newest(s))
         case WorkerLast => s.file == Holds(First(s)) || s.file == Overlay(cfg, Holds(Newest(s)), First(s))
       else InLoop(s) && s.firstOk ==> s.file == Holds(First(s))
  }

  /** Whether the newest set the updater stored is still in the file. */
  predicate NewestSurvives(cfg: Config, s: State, place: Placement)
    requires Stored(s) != []
  {
    match place
    case WorkerFirst => true
    case Overlapping => cfg.size(First(s)) <= cfg.size(Newest(s))
    case WorkerLast => First(s) == Newest(s)
  }

  /** The step leaves alone what the file invariant is about. */
  predicate SameFile(s: State, s': State) {
    && s'.file == s.file && s'.delivered == s.delivered && s'.firstOk == s.firstOk
    && InLoop(s') == InLoop(s) && Stored(s') == Stored(s)
    && s'.worker.WritingCache? == s.worker.WritingCache? && s'.updater.WritingCache? == s.updater.WritingCache?
    && UpdaterHolds(s')
  }

  lemma FileKept(cfg: Config, s: State, s': State, place: Placement)
    requires FileInv(cfg, s, place) && SameFile(s, s')
    ensures FileInv(cfg, s', place)
  {
  }

  lemma MainFile(cfg: Config, s: State, l: Label, place: Placement)
    requires ControlInv(s) && FileInv(cfg, s, place) && StepMain(s, l).Some?
    ensures FileInv(cfg, StepMain(s, l).value, NextPlacement(place, l))
  {
    MainSameFile(s, l);
    FileKept(cfg, s, StepMain(s, l).value, place);
  }

  lemma MainSameFile(s: State, l: Label)
    requires ControlInv(s) && UpdaterHolds(s) && StepMain(s, l).Some?
    ensures SameFile(s, StepMain(s, l).value)
    ensures l in {GoWorker, GoUpdater, Add, Close, WaitReturns}
  {
  }

  lemma UpdaterDownloadSameFile(cfg: Config, s: State, l: Label)
    requires cfg.cachePathSet && StepUpdater(cfg, s, l).Some? && l.UpdaterDownload?
    ensures SameFile(s, StepUpdater(cfg, s, l).value)
  {
    var s' := StepUpdater(cfg, s, l).value;
    if Download(l.resp).Some? {
      assert s'.downloads[..|s.downloads|] == s.downloads;
    }
  }

  lemma WorkerOpens(cfg: Config, s: State, l: Label, place: Placement)
    requires cfg.cachePathSet && ControlInv(s) && DeliveryInv(s)
    requires FileInv(cfg, s, place) && StepWorker(cfg, s, l).Some? && WriteSucceeds(l)
    requires l.WorkerOpenCache?
    ensures FileInv(cfg, StepWorker(cfg, s, l).value, NextPlacement(place, l))
  {
    assert Stored(StepWorker(cfg, s, l).value) == Stored(s);
  }

  lemma WorkerWrites(cfg: Config, s: State, l: Label, place: Placement)
    requires cfg.cachePathSet && ControlInv(s) && DeliveryInv(s)
    requires FileInv(cfg, s, place) && StepWorker(cfg, s, l).Some? && WriteSucceeds(l)
    requires l.WorkerWriteCache?
    ensures FileInv(cfg, StepWorker(cfg, s, l).value, NextPlacement(place, l))
  {
    assert Stored(StepWorker(cfg, s, l).value) == Stored(s);
  }

  lemma WorkerDownloadSameFile(cfg: Config, s: State, l: Label)
    requires cfg.cachePathSet && UpdaterHolds(s) && StepWorker(cfg, s, l).Some? && l.WorkerDownload?
    ensures SameFile(s, StepWorker(cfg, s, l).value)
  {
  }

  lemma WorkerDownloads(cfg: Config, s: State, l: Label, place: Placement)
    requires cfg.cachePathSet && ControlInv(s) && DeliveryInv(s)
    requires FileInv(cfg, s, place) && StepWorker(cfg, s, l).Some? && WriteSucceeds(l)
    requires l.WorkerDownload?
    ensures FileInv(cfg, StepWorker(cfg, s, l).value, NextPlacement(place, l))
  {
    WorkerDownloadSameFile(cfg, s, l);
    FileKept(cfg, s, StepWorker(cfg, s, l).value, place);
  }

  lemma WorkerReadEffect(cfg: Config, s: State, l: Label)
    requires cfg.cachePathSet && ControlInv(s) && StepWorker(cfg, s, l).Some? && l.WorkerReadCache?
    ensures var s' := StepWorker(cfg, s, l).value;
      && InLoop(s') && !InLoop(s) && !s.worker.WritingCache? && !s'.worker.WritingCache?
      && s'.updater == s.updater && s'.downloads == s.downloads && s'.file == s.file
      && (s'.firstOk ==> s.file.Holds? && s'.delivered == [Some(s.file.keys)])
  {
  }

  lemma EnteredKept(cfg: Config, s: State, s': State, place: Placement)
    requires FileInv(cfg, s, place)
    requires InLoop(s') && !InLoop(s) && !s.worker.WritingCache? && !s'.worker.WritingCache?
    requires s'.updater == s.updater && s'.downloads == s.downloads && s'.file == s.file
    requires s'.firstOk ==> s.file.Holds? && s'.delivered == [Some(s.file.keys)]
    ensures FileInv(cfg, s', place)
  {
    assert Stored(s') == Stored(s);
  }

  lemma WorkerReads(cfg: Config, s: State, l: Label, place: Placement)
    requires cfg.cachePathSet && ControlInv(s) && DeliveryInv(s)
    requires FileInv(cfg, s, place) && StepWorker(cfg, s, l).Some? && WriteSucceeds(l)
    requires l.WorkerReadCache?
    ensures FileInv(cfg, StepWorker(cfg, s, l).value, NextPlacement(place, l))
  {
    WorkerReadEffect(cfg, s, l);
    EnteredKept(cfg, s, StepWorker(cfg, s, l).value, place);
  }

  lemma WorkerLoops(cfg: Config, s: State, l: Label, place: Placement)
    requires cfg.cachePathSet && ControlInv(s) && DeliveryInv(s)
    requires FileInv(cfg, s, place) && StepWorker(cfg, s, l).Some? && WriteSucceeds(l)
    requires l in {Get, Deliver, WorkerDone}
    ensures FileInv(cfg, StepWorker(cfg, s, l).value, NextPlacement(place, l))
  {
    assert Stored(StepWorker(cfg, s, l).value) == Stored(s);
  }

  lemma WorkerFile(cfg: Config, s: State, l: Label, place: Placement)
    requires cfg.cachePathSet && ControlInv(s) && DeliveryInv(s)
    requires FileInv(cfg, s, place) && StepWorker(cfg, s, l).Some? && WriteSucceeds(l)
    ensures FileInv(cfg, StepWorker(cfg, s, l).value, NextPlacement(place, l))
  {
    if l.WorkerOpenCache? {
      WorkerOpens(cfg, s, l, place);
    } else if l.WorkerWriteCache? {
      WorkerWrites(cfg, s, l, place);
    } else if l.WorkerDownload? {
      WorkerDownloads(cfg, s, l, place);
    } else if l.WorkerReadCache? {
      WorkerReads(cfg, s, l, place);
    } else {
      WorkerLoops(cfg, s, l, place);
    }
  }

  lemma UpdaterOpens(cfg: Config, s: State, l: Label, place: Placement)
    requires cfg.cachePathSet && ControlInv(s) && DeliveryInv(s)
    requires FileInv(cfg, s, place) && StepUpdater(cfg, s, l).Some? && WriteSucceeds(l)
    requires l.UpdaterOpenCache?
    ensures FileInv(cfg, StepUpdater(cfg, s, l).value, NextPlacement(place, l))
  {
    assert Stored(StepUpdater(cfg, s, l).value) == Stored(s);
  }

  lemma UpdaterWrites(cfg: Config, s: State, l: Label, place: Placement)
    requires cfg.cachePathSet && ControlInv(s) && DeliveryInv(s)
    requires FileInv(cfg, s, place) && StepUpdater(cfg, s, l).Some? && WriteSucceeds(l)
    requires l.UpdaterWriteCache?
    ensures FileInv(cfg, StepUpdater(cfg, s, l).value, NextPlacement(place, l))
  {
    assert Stored(StepUpdater(cfg, s, l).value) == s.downloads;
  }

  lemma UpdaterDownloads(cfg: Config, s: State, l: Label, place: Placement)
    requires cfg.cachePathSet && ControlInv(s) && DeliveryInv(s)
    requires FileInv(cfg, s, place) && StepUpdater(cfg, s, l).Some? && WriteSucceeds(l)
    requires l.UpdaterDownload?
    ensures FileInv(cfg, StepUpdater(cfg, s, l).value, NextPlacement(place, l))
  {
    UpdaterDownloadSameFile(cfg, s, l);
    FileKept(cfg, s, StepUpdater(cfg, s, l).value, place);
  }

  lemma UpdaterWaits(cfg: Config, s: State, l: Label, place: Placement)
    requires cfg.cachePathSet && ControlInv(s) && DeliveryInv(s)
    requires FileInv(cfg, s, place) && StepUpdater(cfg, s, l).Some? && WriteSucceeds(l)
    requires l in {Tick, Abandon, UpdaterDone, StopTicker}
    ensures FileInv(cfg, StepUpdater(cfg, s, l).value, NextPlacement(place, l))
  {
    assert Stored(StepUpdater(cfg, s, l).value) == Stored(s);
  }

  lemma UpdaterFile(cfg: Config, s: State, l: Label, place: Placement)
    requires cfg.cachePathSet && ControlInv(s) && DeliveryInv(s)
    requires FileInv(cfg, s, place) && StepUpdater(cfg, s, l).Some? && WriteSucceeds(l)
    ensures FileInv(cfg, StepUpdater(cfg, s, l).value, NextPlacement(place, l))
  {
    if l.UpdaterOpenCache? {
      UpdaterOpens(cfg, s, l, place);
    } else if l.UpdaterWriteCache? {
      UpdaterWrites(cfg, s, l, place);
    } else if l.UpdaterDownload? {
      UpdaterDownloads(cfg, s, l, place);
    } else {
      UpdaterWaits(cfg, s, l, place);
    }
  }

  lemma {:induction false} RunFileInv(cfg: Config, s: State, place: Placement, ls: seq<Label>)
    requires cfg.cachePathSet && Inv(s) && FileInv(cfg, s, place)
    requires WritesSucceed(ls) && Run(cfg, s, ls).Some?
    ensures Inv(Run(cfg, s, ls).value) && FileInv(cfg, Run(cfg, s, ls).value, PlaceFrom(place, ls))
    decreases ls
  {
    if ls != [] {
      var l := ls[0];
      assert l in ls;
      StepInv(cfg, s, l);
      if StepMain(s, l).Some? {
        MainFile(cfg, s, l, place);
      } else if StepWorker(cfg, s, l).Some? {
        WorkerFile(cfg, s, l, place);
      } else {
        UpdaterFile(cfg, s, l, place);
      }
      RunFileInv(cfg, Step(cfg, s, l).value, NextPlacement(place, l), ls[1..]);
    }
  }

  /** The file holds the served set or, while the updater is delivering a newer one, that set. */
  predicate CacheCurrent(s: State) {
    if s.updater.Sending? then s.file == Holds(s.updater.ks)
    else s.keys.Some? && s.file == Holds(s.keys.value)
  }

  /** The worker is in its loop, and there are keys that were obtained without error. */
  predicate Obtained(s: State) {
    InLoop(s) && (s.firstOk || Stored(s) != [])
  }

  /** The newest keys the cache should have: those the updater stored last, or the worker's. */
  function Latest(s: State): Option<KeySet> {
    if Stored(s) != [] then Some(Newest(s)) else s.keys
  }

  /** Whether it does: not while the updater writes, except that the worker may have written meanwhile. */
  predicate CacheKept(cfg: Config, s: State, place: Placement) {
    if s.updater.WritingCache? then place == WorkerLast && (Stored(s) == [] || First(s) == Newest(s))
    else Stored(s) == [] || NewestSurvives(cfg, s, place)
  }

  /**
   In every run whose writes succeed, once the worker is in its loop and while nobody is writing: the file
   holds the newest stored set exactly when the worker did not write after the updater's last write, and wrote
   no longer text while the updater had the file open; or it wrote the same set. Unless the worker's text is
   longer, only the order of the last writes matters. Everything received was stored.
   */
  lemma FileHoldsNewestIff(cfg: Config, file: File, ls: seq<Label>, s: State)
    requires cfg.cachePathSet && WritesSucceed(ls) && Run(cfg, Init(file), ls) == Some(s)
    requires InLoop(s) && !s.updater.WritingCache?
    ensures Stored(s) != [] ==> (s.file == Holds(Newest(s)) <==> NewestSurvives(cfg, s, Place(ls)))
    ensures Stored(s) != [] && cfg.size(First(s)) <= cfg.size(Newest(s)) ==>
      (s.file == Holds(Newest(s)) <==> !WorkerWroteLast(ls) || First(s) == Newest(s))
    ensures DeliveryInv(s) && Subsequence(Received(s), Stored(s))
  {
    WorkerLastFrom(WorkerFirst, ls);
    InitInv(file);
    RunFileInv(cfg, Init(file), WorkerFirst, ls);
    ReceivedAreStored(s);
    if Stored(s) != [] {
      SurvivesIff(cfg, s, Place(ls));
    }
  }

  /**
   So until Close cancels the cache agrees with what is served exactly as follows. While the updater writes: when
   the worker has written since the updater opened the file. Otherwise: when the updater has stored nothing yet,
   or its newest set survived the worker's write.
   */
  lemma CacheAgrees(cfg: Config, file: File, ls: seq<Label>, s: State)
    requires cfg.cachePathSet && WritesSucceed(ls) && Run(cfg, Init(file), ls) == Some(s)
    requires Obtained(s) && !s.cancelled
    ensures CacheCurrent(s) <==> CacheKept(cfg, s, Place(ls))
  {
    InitInv(file);
    RunFileInv(cfg, Init(file), WorkerFirst, ls);
    HoldsLatestIff(cfg, s, Place(ls));
    LatestIsCurrent(s);
  }

  lemma HoldsFirstIff(cfg: Config, s: State, place: Placement)
    requires Inv(s) && FileInv(cfg, s, place) && Obtained(s) && Stored(s) == []
    ensures Latest(s) == Some(First(s)) && (s.file == Holds(First(s)) <==> CacheKept(cfg, s, place))
    ensures s.file.Holds? || s.file == Unparsable(EMPTY_SET)
  {
    NothingStored(s);
  }

  lemma HoldsStoredIff(cfg: Config, s: State, place: Placement)
    requires ControlInv(s) && FileInv(cfg, s, place) && InLoop(s) && Stored(s) != []
    ensures s.file == Holds(Newest(s)) <==> CacheKept(cfg, s, place)
    ensures s.file.Holds? || s.file == Unparsable(EMPTY_SET)
  {
    if !s.updater.WritingCache? {
      SurvivesIff(cfg, s, place);
    }
  }

  lemma StoredNonempty(s: State)
    requires HistoryInv(s) && Stored(s) != []
    ensures Newest(s).kids != []
  {
    assert Newest(s) in s.downloads;
  }

  lemma HoldsLatestIff(cfg: Config, s: State, place: Placement)
    requires Inv(s) && FileInv(cfg, s, place) && Obtained(s)
    ensures Latest(s).Some? && (s.file == Holds(Latest(s).value) <==> CacheKept(cfg, s, place))
    ensures s.file.Holds? || s.file == Unparsable(EMPTY_SET)
    ensures Stored(s) != [] ==> Latest(s) != Some(EMPTY_SET)
  {
    if Stored(s) == [] {
      HoldsFirstIff(cfg, s, place);
    } else {
      StoredNonempty(s);
      HoldsStoredIff(cfg, s, place);
    }
  }

  lemma SurvivesIff(cfg: Config, s: State, place: Placement)
    requires ControlInv(s) && FileInv(cfg, s, place) && InLoop(s) && !s.updater.WritingCache? && Stored(s) != []
    ensures s.file == Holds(Newest(s)) <==> NewestSurvives(cfg, s, place)
  {
  }

  lemma ReceivedAreStored(s: State)
    requires HistoryInv(s) && (s.updater.OpeningCache? || s.updater.WritingCache? ==> s.downloads != [])
    ensures Subsequence(Received(s), Stored(s))
  {
    var handled := s.downloads[..|s.downloads| - |Pending(s)|];
    if s.updater.Sending? {
      assert Stored(s) == handled + [s.updater.ks];
      SubsequenceGrow(Received(s), handled, s.updater.ks);
    } else {
      assert Stored(s) == handled;
    }
  }

  lemma LastReceived(s: State)
    requires DeliveryInv(s) && |s.delivered| > 1
    ensures s.keys == Some(Received(s)[|Received(s)| - 1])
  {
    assert s.delivered[1..][|s.delivered| - 2] == s.keys;
  }

  /** Before cancellation the newest keys are those being delivered or those being served. */
  lemma LatestIsCurrent(s: State)
    requires HistoryInv(s) && UpdaterHolds(s) && !s.cancelled && Obtained(s)
    ensures Latest(s) == if s.updater.Sending? then Some(s.updater.ks) else s.keys
  {
    if s.updater.Sending? {
      assert s.downloads[|s.downloads| - 1] == s.updater.ks;
    } else if Stored(s) != [] {
      NewestIsReceived(s);
    }
  }

  lemma NewestIsReceived(s: State)
    requires HistoryInv(s) && UpdaterHolds(s) && !s.cancelled && !s.updater.Sending? && Stored(s) != []
    ensures s.keys == Some(Newest(s))
  {
    assert Stored(s) == s.downloads[..|s.downloads| - |Pending(s)|] == Received(s);
    LastReceived(s);
  }

  lemma NothingStored(s: State)
    requires HistoryInv(s) && UpdaterHolds(s) && Obtained(s) && Stored(s) == []
    ensures |s.delivered| == 1 && s.firstOk
  {
    ReceivedAreStored(s);
    assert Received(s) == [];
  }

  // --------------------------------------------------------------------------------------------------
  // Ticks that come late enough
  // --------------------------------------------------------------------------------------------------

  /** Every tick of the run fires after the worker has entered its loop. */
  predicate NoEarlyTick(cfg: Config, s: State, ls: seq<Label>)
    decreases ls
  {
    ls == [] ||
    ((ls[0] == Tick ==> InLoop(s)) && Step(cfg, s, ls[0]).Some? && NoEarlyTick(cfg, Step(cfg, s, ls[0]).value, ls[1..]))
  }

  /** Then the updater does nothing until the worker has written, so the worker's write is always the earlier one. */
  predicate LateTicksInv(s: State, place: Placement) {
    && (!InLoop(s) ==>
          s.downloads == [] && (s.updater.NotStarted? || s.updater.Waiting? || s.updater.StoppingTicker? || s.updater.Exited?))
    && place != Overlapping
    && (place == WorkerLast ==> Stored(s) == [] && !s.updater.WritingCache?)
  }

  lemma LateTicksMain(s: State, l: Label, place: Placement)
    requires ControlInv(s) && LateTicksInv(s, place) && StepMain(s, l).Some?
    ensures LateTicksInv(StepMain(s, l).value, NextPlacement(place, l))
  {
  }

  lemma LateTicksWorker(cfg: Config, s: State, l: Label, place: Placement)
    requires LateTicksInv(s, place) && StepWorker(cfg, s, l).Some?
    ensures LateTicksInv(StepWorker(cfg, s, l).value, NextPlacement(place, l))
  {
  }

  lemma LateTicksUpdater(cfg: Config, s: State, l: Label, place: Placement)
    requires cfg.cachePathSet && LateTicksInv(s, place) && StepUpdater(cfg, s, l).Some? && WriteSucceeds(l)
    requires l == Tick ==> InLoop(s)
    ensures LateTicksInv(StepUpdater(cfg, s, l).value, NextPlacement(place, l))
  {
  }

  lemma {:induction false} LateTicksRun(cfg: Config, s: State, place: Placement, ls: seq<Label>)
    requires cfg.cachePathSet && ControlInv(s) && LateTicksInv(s, place)
    requires WritesSucceed(ls) && NoEarlyTick(cfg, s, ls)
    ensures Run(cfg, s, ls).Some? && LateTicksInv(Run(cfg, s, ls).value, PlaceFrom(place, ls))
    decreases ls
  {
    if ls != [] {
      var l := ls[0];
      assert l in ls;
      StepControl(cfg, s, l);
      if StepMain(s, l).Some? {
        LateTicksMain(s, l, place);
      } else if StepWorker(cfg, s, l).Some? {
        LateTicksWorker(cfg, s, l, place);
      } else {
        LateTicksUpdater(cfg, s, l, place);
      }
      LateTicksRun(cfg, Step(cfg, s, l).value, NextPlacement(place, l), ls[1..]);
    }
  }

  /**
   When no tick fires before the worker is in its loop, the cache holds the newest keys in every state except
   while the updater is writing; before cancellation these are the served ones or those being delivered.
   */
  lemma LateTicksKeepCache(cfg: Config, file: File, ls: seq<Label>, s: State)
    requires cfg.cachePathSet && WritesSucceed(ls) && Run(cfg, Init(file), ls) == Some(s)
    requires NoEarlyTick(cfg, Init(file), ls) && Obtained(s)
    ensures Latest(s).Some? && (s.file == Holds(Latest(s).value) <==> !s.updater.WritingCache?)
    ensures !s.cancelled ==> (CacheCurrent(s) <==> !s.updater.WritingCache?)
  {
    InitInv(file);
    LateTicksRun(cfg, Init(file), WorkerFirst, ls);
    RunFileInv(cfg, Init(file), WorkerFirst, ls);
    HoldsLatestIff(cfg, s, Place(ls));
    if !s.cancelled {
      LatestIsCurrent(s);
    }
  }

  // --------------------------------------------------------------------------------------------------
  // Restarts
  // --------------------------------------------------------------------------------------------------

  /** A manager whose first download fails, up to its first Get. */
  const FALLBACK: seq<Label> := [GoWorker, GoUpdater, Add, WorkerDownload(TransportError), WorkerReadCache(true), Get]

  /** What parsing the file yields: nothing, what is left of a bad file, or the whole set. */
  function InFile(file: File): Option<KeySet> {
    match file
    case Missing => None
    case Unparsable(partial) => Some(partial)
    case Holds(keys) => Some(keys)
  }

  lemma FallbackServesFile(cfg: Config, file: File) returns (s: State)
    requires cfg.cachePathSet
    ensures Run(cfg, Init(file), FALLBACK) == Some(s)
    ensures s.served == [InFile(file)] && s.firstOk == file.Holds? && s.file == file
  {
    var s0 := Init(file);
    var s1 := s0.(main := BeforeUpdater, worker := Worker.Downloading);
    var s2 := s1.(main := BeforeAdd, updater := Waiting);
    var s3 := s2.(main := Returned, waitGroup := 2);
    var s4 := s3.(worker := ReadingCache);
    var s5 := EnterLoop(s4, InFile(file), file.Holds?);
    s := s5.(served := [] + [InFile(file)]);
    var ls := FALLBACK;
    RunThrough(cfg, ls, [s0, s1, s2, s3, s4, s5, s], 0);
    assert ls[0..] == ls;
  }

  /**
   The cache carries keys over a restart, whether this manager was closed, stopped in the middle of a write, or is
   still running: when the next manager cannot download, its first Get returns the newest keys exactly when the
   cache kept them, or when they are an empty set, which is what an empty file parses to.
   */
  lemma RestartContinues(cfg: Config, file: File, ls: seq<Label>, s: State) returns (next: State)
    requires cfg.cachePathSet && WritesSucceed(ls) && Run(cfg, Init(file), ls) == Some(s)
    requires Obtained(s)
    ensures Run(cfg, Init(s.file), FALLBACK) == Some(next)
    ensures next.served == [Latest(s)] <==> CacheKept(cfg, s, Place(ls)) || Latest(s) == Some(EMPTY_SET)
    ensures !s.cancelled ==> Latest(s) == if s.updater.Sending? then Some(s.updater.ks) else s.keys
  {
    InitInv(file);
    RunFileInv(cfg, Init(file), WorkerFirst, ls);
    HoldsLatestIff(cfg, s, Place(ls));
    next := FallbackServesFile(cfg, s.file);
    if !s.cancelled {
      LatestIsCurrent(s);
    }
  }

  /** After an orderly stop, with both goroutines gone, nothing is being written. */
  lemma RestartAfterClose(cfg: Config, file: File, ls: seq<Label>, s: State) returns (next: State)
    requires cfg.cachePathSet && WritesSucceed(ls) && Run(cfg, Init(file), ls) == Some(s)
    requires s.worker.Exited? && s.updater.Exited? && Obtained(s)
    ensures Run(cfg, Init(s.file), FALLBACK) == Some(next)
    ensures Stored(s) == [] ==> next.served == [s.keys]
    ensures Stored(s) != [] ==> (next.served == [Some(Newest(s))] <==> NewestSurvives(cfg, s, Place(ls)))
  {
    InitInv(file);
    RunFileInv(cfg, Init(file), WorkerFirst, ls);
    HoldsLatestIff(cfg, s, Place(ls));
    next := RestartContinues(cfg, file, ls, s);
  }

  // --------------------------------------------------------------------------------------------------
  // Runs in which the cache does not agree
  // --------------------------------------------------------------------------------------------------

  /** Every later store empties the file first: here the worker serves a while the file holds nothing. */
  function StoreUnderWay(a: KeySet, b: KeySet): seq<Label> {
    [GoWorker, GoUpdater, Add, WorkerDownload(Response(false, true, a)), WorkerOpenCache(true), WorkerWriteCache(true),
     Tick, UpdaterDownload(Response(false, true, b)), UpdaterOpenCache(true)]
  }

  lemma StoreEmptiesCache(cfg: Config, a: KeySet, b: KeySet, file: File) returns (s: State)
    requires cfg.cachePathSet && a.kids != [] && b.kids != []
    ensures Run(cfg, Init(file), StoreUnderWay(a, b)) == Some(s) && NoEarlyTick(cfg, Init(file), StoreUnderWay(a, b))
    ensures s.keys == Some(a) && s.file == Unparsable(EMPTY_SET) && !CacheCurrent(s)
  {
    var ls := StoreUnderWay(a, b);
    var s0 := Init(file);
    var s1 := s0.(main := BeforeUpdater, worker := Worker.Downloading);
    var s2 := s1.(main := BeforeAdd, updater := Waiting);
    var s3 := s2.(main := Returned, waitGroup := 2);
    var s4 := s3.(worker := Worker.OpeningCache, keys := Some(a));
    var s5 := s4.(worker := Worker.WritingCache, file := Unparsable(EMPTY_SET));
    var s6 := s5.(worker := Looping, file := Holds(a), delivered := [Some(a)], firstOk := true);
    var s7 := s6.(updater := Updater.Downloading);
    var s8 := s7.(updater := Updater.OpeningCache(b), downloads := [] + [b]);
    s := s8.(updater := Updater.WritingCache(b), file := Unparsable(EMPTY_SET));
    var states := [s0, s1, s2, s3, s4, s5, s6, s7, s8, s];
    RunThrough(cfg, ls, states, 0);
    LateThrough(cfg, ls, states, 0);
    assert ls[0..] == ls;
  }

  /** Up to here the worker has downloaded a, and the updater, on an early tick, b. */
  function EarlyStart(a: KeySet, b: KeySet): seq<Label> {
    [GoWorker, GoUpdater, Add, WorkerDownload(Response(false, true, a)), Tick, UpdaterDownload(Response(false, true, b))]
  }

  function BothDownloaded(a: KeySet, b: KeySet, file: File): State {
    State(Returned, Worker.OpeningCache, Updater.OpeningCache(b), 2, false, 0, 0, Some(a), file, [], [b], [], false)
  }

  lemma EarlyTickStart(cfg: Config, a: KeySet, b: KeySet, file: File)
    requires cfg.cachePathSet && a.kids != [] && b.kids != []
    ensures Run(cfg, Init(file), EarlyStart(a, b)) == Some(BothDownloaded(a, b, file))
  {
    var ls := EarlyStart(a, b);
    var s0 := Init(file);
    var s1 := s0.(main := BeforeUpdater, worker := Worker.Downloading);
    var s2 := s1.(main := BeforeAdd, updater := Waiting);
    var s3 := s2.(main := Returned, waitGroup := 2);
    var s4 := s3.(worker := Worker.OpeningCache, keys := Some(a));
    var s5 := s4.(updater := Updater.Downloading);
    assert s5.downloads + [b] == [b];
    RunThrough(cfg, ls, [s0, s1, s2, s3, s4, s5, BothDownloaded(a, b, file)], 0);
    assert ls[0..] == ls;
  }

  /** What is left when b was delivered, with this file. */
  function Delivered(a: KeySet, b: KeySet, file: File): State {
    State(Returned, Looping, Waiting, 2, false, 0, 0, Some(b), file, [Some(a), Some(b)], [b], [], true)
  }

  /** The worker opens and writes after the updater has. */
  const LATE_WORKER: seq<Label> :=
    [UpdaterOpenCache(true), UpdaterWriteCache(true), WorkerOpenCache(true), WorkerWriteCache(true), Deliver]

  /** The worker opens and writes while the updater has the file open. */
  const OVERLAP: seq<Label> :=
    [UpdaterOpenCache(true), WorkerOpenCache(true), WorkerWriteCache(true), UpdaterWriteCache(true), Deliver]

  lemma LateWorkerRuns(cfg: Config, a: KeySet, b: KeySet, file: File)
    ensures Run(cfg, BothDownloaded(a, b, file), LATE_WORKER) == Some(Delivered(a, b, Holds(a)))
  {
    var ls := LATE_WORKER;
    var s0 := BothDownloaded(a, b, file);
    var s1 := s0.(updater := Updater.WritingCache(b), file := Unparsable(EMPTY_SET));
    var s2 := s1.(updater := Sending(b), file := Holds(b));
    var s3 := s2.(worker := Worker.WritingCache, file := Unparsable(EMPTY_SET));
    var s4 := s3.(worker := Looping, file := Holds(a), delivered := [Some(a)], firstOk := true);
    assert [Some(a)] + [Some(b)] == [Some(a), Some(b)];
    RunThrough(cfg, ls, [s0, s1, s2, s3, s4, Delivered(a, b, Holds(a))], 0);
    assert ls[0..] == ls;
  }

  lemma OverlapRuns(cfg: Config, a: KeySet, b: KeySet, file: File)
    ensures Run(cfg, BothDownloaded(a, b, file), OVERLAP) == Some(Delivered(a, b, Overlay(cfg, Holds(a), b)))
  {
    var ls := OVERLAP;
    var s0 := BothDownloaded(a, b, file);
    var s1 := s0.(updater := Updater.WritingCache(b), file := Unparsable(EMPTY_SET));
    var s2 := s1.(worker := Worker.WritingCache);
    var s3 := s2.(worker := Looping, file := Holds(a), delivered := [Some(a)], firstOk := true);
    var s4 := s3.(updater := Sending(b), file := Overlay(cfg, Holds(a), b));
    assert [Some(a)] + [Some(b)] == [Some(a), Some(b)];
    RunThrough(cfg, ls, [s0, s1, s2, s3, s4, Delivered(a, b, s4.file)], 0);
    assert ls[0..] == ls;
  }

  /**
   When a tick fires before the worker has stored its first set and the worker then stores last, the file keeps
   the older set while the newer one is served, unless the two are the same.
   */
  lemma EarlyTickLeavesOlderCache(cfg: Config, a: KeySet, b: KeySet, file: File) returns (s: State)
    requires cfg.cachePathSet && a.kids != [] && b.kids != []
    ensures Run(cfg, Init(file), EarlyStart(a, b) + LATE_WORKER) == Some(s)
    ensures WorkerWroteLast(EarlyStart(a, b) + LATE_WORKER)
    ensures s.keys == Some(b) && s.file == Holds(a) && s.delivered == [Some(a), Some(b)]
    ensures CacheCurrent(s) <==> a == b
  {
    var ls := EarlyStart(a, b) + LATE_WORKER;
    assert ls[9] == WorkerWriteCache(true) && ls[10..] == [Deliver];
    EarlyTickStart(cfg, a, b, file);
    LateWorkerRuns(cfg, a, b, file);
    RunAppend(cfg, Init(file), EarlyStart(a, b), LATE_WORKER);
    s := Delivered(a, b, Holds(a));
  }

  /** When the two overlap and the older text is longer, the file is left unparsable. */
  lemma OverlapTearsCache(cfg: Config, a: KeySet, b: KeySet, file: File) returns (s: State)
    requires cfg.cachePathSet && a.kids != [] && b.kids != []
    ensures Run(cfg, Init(file), EarlyStart(a, b) + OVERLAP) == Some(s)
    ensures s.keys == Some(b) && s.delivered == [Some(a), Some(b)]
    ensures s.file == if cfg.size(a) > cfg.size(b) then Unparsable(EMPTY_SET) else Holds(b)
  {
    EarlyTickStart(cfg, a, b, file);
    OverlapRuns(cfg, a, b, file);
    RunAppend(cfg, Init(file), EarlyStart(a, b), OVERLAP);
    s := Delivered(a, b, Overlay(cfg, Holds(a), b));
  }

  lemma {:induction false} RunAppend(cfg: Config, s: State, ls: seq<Label>, ls': seq<Label>)
    requires Run(cfg, s, ls).Some?
    ensures Run(cfg, s, ls + ls') == Run(cfg, Run(cfg, s, ls).value, ls')
    decreases ls
  {
    if ls == [] {
      assert ls + ls' == ls';
    } else {
      assert (ls + ls')[1..] == ls[1..] + ls';
      RunAppend(cfg, Step(cfg, s, ls[0]).value, ls[1..], ls');
    }
  }

  /** A run may be checked state by state. */
  lemma {:induction false} RunThrough(cfg: Config, ls: seq<Label>, states: seq<State>, i: nat)
    requires |states| == |ls| + 1 && i <= |ls|
    requires forall j | 0 <= j < |ls| :: Step(cfg, states[j], ls[j]) == Some(states[j + 1])
    ensures Run(cfg, states[i], ls[i..]) == Some(states[|ls|])
    decreases |ls| - i
  {
    if i < |ls| {
      RunThrough(cfg, ls, states, i + 1);
      assert ls[i..][0] == ls[i] && ls[i..][1..] == ls[i + 1..];
    }
  }

  lemma {:induction false} LateThrough(cfg: Config, ls: seq<Label>, states: seq<State>, i: nat)
    requires |states| == |ls| + 1 && i <= |ls|
    requires forall j | 0 <= j < |ls| :: Step(cfg, states[j], ls[j]) == Some(states[j + 1]) && (ls[j] == Tick ==> InLoop(states[j]))
    ensures NoEarlyTick(cfg, states[i], ls[i..])
    decreases |ls| - i
  {
    if i < |ls| {
      LateThrough(cfg, ls, states, i + 1);
      assert ls[i..][0] == ls[i] && ls[i..][1..] == ls[i + 1..];
    }
  }

  // --------------------------------------------------------------------------------------------------
  // Where served keys come from, in every run
  // --------------------------------------------------------------------------------------------------

  /** A successful, non-empty JSON answer. */
  predicate Usable(resp: Response) {
    resp.Response? && !resp.isError && resp.isJson && resp.keys.kids != []
  }

  predicate UpdaterGets(l: Label) {
    l.UpdaterDownload? && Usable(l.resp)
  }

  /** The sets of the updater's usable answers, in order. */
  function UpdaterSets(ls: seq<Label>): seq<KeySet> {
    if ls == [] then []
    else (if UpdaterGets(ls[0]) then [ls[0].resp.keys] else []) + UpdaterSets(ls[1..])
  }

  lemma {:induction false} DownloadsFrom(cfg: Config, s: State, ls: seq<Label>)
    requires Run(cfg, s, ls).Some?
    ensures Run(cfg, s, ls).value.downloads == s.downloads + UpdaterSets(ls)
    decreases ls
  {
    if ls != [] {
      var s' := Step(cfg, s, ls[0]).value;
      DownloadsStep(cfg, s, ls[0]);
      DownloadsFrom(cfg, s', ls[1..]);
    }
  }

  lemma DownloadsStep(cfg: Config, s: State, l: Label)
    requires Step(cfg, s, l).Some?
    ensures Step(cfg, s, l).value.downloads == s.downloads + if UpdaterGets(l) then [l.resp.keys] else []
  {
  }

  /** Reading the cache: nil without a path or a readable file, otherwise what the file parses to. */
  function CacheRead(cfg: Config, file: File, readable: bool): Option<KeySet> {
    if !cfg.cachePathSet || !readable then None else InFile(file)
  }

  lemma MainStart(s: State, l: Label)
    requires ControlInv(s) && StepMain(s, l).Some?
    ensures var s' := StepMain(s, l).value;
      && !l.WorkerDownload? && s'.keys == s.keys && s'.delivered == s.delivered
      && if l == GoWorker then s.worker.NotStarted? && s'.worker.Downloading? else s'.worker == s.worker
  {
  }

  lemma UpdaterStart(cfg: Config, s: State, l: Label)
    requires StepUpdater(cfg, s, l).Some?
    ensures var s' := StepUpdater(cfg, s, l).value;
      !l.WorkerDownload? && s'.keys == s.keys && s'.delivered == s.delivered && s'.worker == s.worker
  {
  }

  lemma WorkerStart(cfg: Config, s: State, l: Label)
    requires StepWorker(cfg, s, l).Some?
    ensures var s' := StepWorker(cfg, s, l).value;
      if l.WorkerDownload? then
        s.worker.Downloading? &&
        if !Usable(l.resp) then s'.worker.ReadingCache?
        else if InLoop(s') then s'.delivered == [Some(l.resp.keys)]
        else s'.worker.OpeningCache? && s'.keys == Some(l.resp.keys)
      else if l.WorkerReadCache? then
        s.worker.ReadingCache? && InLoop(s') && s'.delivered == [CacheRead(cfg, s.file, l.readable)]
      else if InLoop(s) then
        InLoop(s') && s.delivered <= s'.delivered
      else
        && (s.worker.OpeningCache? || s.worker.WritingCache?)
        && if InLoop(s') then s'.delivered == [s.keys] else s'.worker.WritingCache? && s'.keys == s.keys
  {
  }

  lemma {:induction false} PrefixRuns(cfg: Config, s: State, ls: seq<Label>, k: nat)
    requires Run(cfg, s, ls).Some? && k < |ls|
    ensures Run(cfg, s, ls[..k]).Some? && Run(cfg, s, ls[..k + 1]).Some?
    ensures Step(cfg, Run(cfg, s, ls[..k]).value, ls[k]) == Run(cfg, s, ls[..k + 1])
    decreases ls
  {
    if k > 0 {
      PrefixRuns(cfg, Step(cfg, s, ls[0]).value, ls[1..], k - 1);
      assert ls[1..][..k - 1] == ls[..k][1..] && ls[1..][..k] == ls[..k + 1][1..];
    } else {
      assert ls[..0] == [] && ls[..1] == [ls[0]] && ls[..1][1..] == [];
    }
  }

  /** The state before the k-th label. */
  function StateAt(cfg: Config, file: File, ls: seq<Label>, k: nat): State
    requires k <= |ls| && Run(cfg, Init(file), ls[..k]).Some?
  {
    Run(cfg, Init(file), ls[..k]).value
  }

  /**
   What the labels so far say about the worker: d is the index of its one download, c that of its reading of the
   cache; -1 while there is none.
   */
  ghost predicate StartInv(cfg: Config, file: File, ls: seq<Label>, k: nat, s: State, d: int, c: int)
    requires k <= |ls| && forall i | 0 <= i <= k :: Run(cfg, Init(file), ls[..i]).Some?
  {
    && -1 <= d < k && -1 <= c < k
    && (forall j | 0 <= j < k :: ls[j].WorkerDownload? <==> j == d)
    && (s.worker.NotStarted? || s.worker.Downloading? ==> d == -1)
    && (d == -1 ==> s.worker.NotStarted? || s.worker.Downloading?)
    && (s.worker.ReadingCache? ==> d >= 0 && !Usable(ls[d].resp))
    && (s.worker.OpeningCache? || s.worker.WritingCache? ==> d >= 0 && Usable(ls[d].resp) && s.keys == Some(ls[d].resp.keys))
    && (InLoop(s) ==> d >= 0 && s.delivered != [] && FirstIs(cfg, file, ls, d, c, s.delivered[0]))
  }

  ghost predicate FirstIs(cfg: Config, file: File, ls: seq<Label>, d: int, c: int, first: Option<KeySet>)
    requires 0 <= d < |ls| && c < |ls| && ls[d].WorkerDownload?
    requires c >= 0 ==> Run(cfg, Init(file), ls[..c]).Some?
  {
    if Usable(ls[d].resp) then first == Some(ls[d].resp.keys)
    else
      && d < c && ls[c].WorkerReadCache?
      && first == CacheRead(cfg, StateAt(cfg, file, ls, c).file, ls[c].readable)
  }

  lemma StartStep(cfg: Config, file: File, ls: seq<Label>, k: nat, s: State, d: int, c: int) returns (d': int, c': int)
    requires k < |ls| && forall i | 0 <= i <= k + 1 :: Run(cfg, Init(file), ls[..i]).Some?
    requires s == StateAt(cfg, file, ls, k) && Step(cfg, s, ls[k]).Some? && ControlInv(s)
    requires StartInv(cfg, file, ls, k, s, d, c)
    ensures StartInv(cfg, file, ls, k + 1, Step(cfg, s, ls[k]).value, d', c')
  {
    var l := ls[k];
    d' := if l.WorkerDownload? then k else d;
    c' := if l.WorkerReadCache? then k else c;
    if StepMain(s, l).Some? {
      MainStart(s, l);
    } else if StepWorker(cfg, s, l).Some? {
      WorkerStart(cfg, s, l);
    } else {
      UpdaterStart(cfg, s, l);
    }
  }

  lemma {:induction false} StartOfRun(cfg: Config, file: File, ls: seq<Label>, k: nat) returns (d: int, c: int)
    requires k <= |ls| && forall i | 0 <= i <= |ls| :: Run(cfg, Init(file), ls[..i]).Some?
    requires forall i | 0 <= i < |ls| ::
      Step(cfg, StateAt(cfg, file, ls, i), ls[i]) == Run(cfg, Init(file), ls[..i + 1])
    ensures ControlInv(StateAt(cfg, file, ls, k))
    ensures StartInv(cfg, file, ls, k, StateAt(cfg, file, ls, k), d, c)
  {
    if k == 0 {
      d, c := -1, -1;
      assert ls[..0] == [];
    } else {
      d, c := StartOfRun(cfg, file, ls, k - 1);
      var s := StateAt(cfg, file, ls, k - 1);
      d, c := StartStep(cfg, file, ls, k - 1, s, d, c);
      StepControl(cfg, s, ls[k - 1]);
    }
  }

  /**
   In every run, with a cache path or not and whatever opens and writes bring: the worker downloads once, and once
   it is in its loop its first keys are those of that answer if it is usable; otherwise they are what reading the
   cache gave, from the file as it then was.
   */
  lemma FirstKeysExact(cfg: Config, file: File, ls: seq<Label>, s: State) returns (d: nat, c: int)
    requires Run(cfg, Init(file), ls) == Some(s) && InLoop(s)
    ensures s.delivered != [] && d < |ls| && c < |ls| && (c >= 0 ==> Run(cfg, Init(file), ls[..c]).Some?)
    ensures forall j | 0 <= j < |ls| :: ls[j].WorkerDownload? <==> j == d
    ensures FirstIs(cfg, file, ls, d, c, s.delivered[0])
  {
    assert ls[..|ls|] == ls;
    forall i | 0 <= i <= |ls|
      ensures Run(cfg, Init(file), ls[..i]).Some?
    {
      if i < |ls| {
        PrefixRuns(cfg, Init(file), ls, i);
      }
    }
    forall i | 0 <= i < |ls|
      ensures Step(cfg, StateAt(cfg, file, ls, i), ls[i]) == Run(cfg, Init(file), ls[..i + 1])
    {
      PrefixRuns(cfg, Init(file), ls, i);
    }
    d, c := StartOfRun(cfg, file, ls, |ls|);
  }

  /** The updater downloads exactly the sets of its usable answers, in their order. */
  lemma DownloadsExact(cfg: Config, file: File, ls: seq<Label>, s: State)
    requires Run(cfg, Init(file), ls) == Some(s)
    ensures s.downloads == UpdaterSets(ls)
  {
    DownloadsFrom(cfg, Init(file), ls);
  }

  lemma LoopDelivers(cfg: Config, s: State)
    requires Reachable(cfg, s)
    ensures InLoop(s) <==> s.delivered != []
    ensures !InLoop(s) ==> s.served == []
  {
    ReachableInv(cfg, s);
  }

  /**
   So everything Get returns in a run is traced to the answers: the worker's first keys, then sets of the updater's
   usable answers in their order, each any number of times, never going back.
   */
  lemma ServedExact(cfg: Config, file: File, ls: seq<Label>, s: State)
    returns (d: int, c: int, first: Option<KeySet>, received: seq<KeySet>, at: seq<nat>)
    requires Run(cfg, Init(file), ls) == Some(s)
    ensures !InLoop(s) ==> s.served == []
    ensures InLoop(s) ==>
      && 0 <= d < |ls| && c < |ls| && ls[d].WorkerDownload? && (c >= 0 ==> Run(cfg, Init(file), ls[..c]).Some?)
      && FirstIs(cfg, file, ls, d, c, first)
      && Placed(s.served, [first] + Somes(received), at)
    ensures Subsequence(received, UpdaterSets(ls))
    ensures !s.cancelled ==> UpdaterSets(ls) == received + Pending(s)
  {
    received := UpdatesFollowDownloads(cfg, s);
    DownloadsExact(cfg, file, ls, s);
    at := ServedInOrder(cfg, s);
    LoopDelivers(cfg, s);
    d, c, first := -1, -1, None;
    if InLoop(s) {
      d, c := FirstKeysExact(cfg, file, ls, s);
      first := s.delivered[0];
      assert s.delivered == [first] + s.delivered[1..];
    }
  }

  lemma GetServes(cfg: Config, s: State)
    ensures Step(cfg, s, Get) ==
      if s.worker.Looping? && s.main.Returned? then Some(s.(served := s.served + [s.keys])) else None
  {
    assert StepMain(s, Get).None? && StepUpdater(cfg, s, Get).None?;
  }

  lemma OnlyGetServes(cfg: Config, s: State, l: Label)
    requires l != Get && Step(cfg, s, l).Some?
    ensures Step(cfg, s, l).value.served == s.served
  {
    if StepMain(s, l).Some? {
      assert StepMain(s, l).value.served == s.served;
    } else if StepWorker(cfg, s, l).Some? {
      assert StepWorker(cfg, s, l).value.served == s.served;
    } else {
      assert StepUpdater(cfg, s, l).value.served == s.served;
    }
  }

  /** A Get is served whenever the worker is in its loop; it returns the newest keys received, and nothing else serves. */
  lemma GetReturnsNewest(cfg: Config, s: State, l: Label)
    requires Reachable(cfg, s)
    ensures Step(cfg, s, Get).Some? <==> s.worker.Looping? && s.main.Returned?
    ensures Step(cfg, s, Get).Some? ==>
      s.delivered != [] && Step(cfg, s, Get).value == s.(served := s.served + [s.delivered[|s.delivered| - 1]])
    ensures l != Get && Step(cfg, s, l).Some? ==> Step(cfg, s, l).value.served == s.served
  {
    ReachableInv(cfg, s);
    GetServes(cfg, s);
    if l != Get && Step(cfg, s, l).Some? {
      OnlyGetServes(cfg, s, l);
    }
  }

  /** Close can be called once construction is over, and cancels; nothing else does. */
  lemma CloseCancels(cfg: Config, s: State, l: Label)
    ensures Step(cfg, s, Close).Some? <==> s.main.Returned?
    ensures s.main.Returned? ==> Step(cfg, s, Close).value == s.(cancelled := true, closing := s.closing + 1)
    ensures l != Close && Step(cfg, s, l).Some? ==> Step(cfg, s, l).value.cancelled == s.cancelled
  {
  }

  /** What the worker does next is possible, whatever the network and the disk bring. */
  predicate WorkerCanGoOn(cfg: Config, s: State, resp: Response, ok: bool) {
    match s.worker
    case Downloading => StepWorker(cfg, s, WorkerDownload(resp)).Some?
    case ReadingCache => StepWorker(cfg, s, WorkerReadCache(ok)).Some?
    case OpeningCache => StepWorker(cfg, s, WorkerOpenCache(ok)).Some?
    case WritingCache => StepWorker(cfg, s, WorkerWriteCache(ok)).Some?
    case _ => s.worker.Looping? && StepWorker(cfg, s, Get).Some?
  }

  predicate UpdaterCanGoOn(cfg: Config, s: State, resp: Response, ok: bool) {
    match s.updater
    case Waiting => StepUpdater(cfg, s, Tick).Some?
    case Downloading => StepUpdater(cfg, s, UpdaterDownload(resp)).Some?
    case OpeningCache(_) => StepUpdater(cfg, s, UpdaterOpenCache(ok)).Some?
    case WritingCache(_) => StepUpdater(cfg, s, UpdaterWriteCache(ok)).Some?
    case _ => s.updater.Sending? && (s.worker.Looping? ==> StepWorker(cfg, s, Deliver).Some?)
  }

  lemma WorkerGoesOn(cfg: Config, s: State, resp: Response, ok: bool)
    requires ControlInv(s) && s.main.Returned? && !s.cancelled
    ensures WorkerCanGoOn(cfg, s, resp, ok)
  {
  }

  lemma UpdaterGoesOn(cfg: Config, s: State, resp: Response, ok: bool)
    requires ControlInv(s) && s.main.Returned? && !s.cancelled
    ensures UpdaterCanGoOn(cfg, s, resp, ok)
  {
  }

  /** Before Close both goroutines keep going: the updater waits for nothing but the worker's loop. */
  lemma NothingBlocks(cfg: Config, s: State, resp: Response, ok: bool)
    requires Reachable(cfg, s) && s.main.Returned? && !s.cancelled
    ensures WorkerCanGoOn(cfg, s, resp, ok) && UpdaterCanGoOn(cfg, s, resp, ok)
  {
    ReachableInv(cfg, s);
    WorkerGoesOn(cfg, s, resp, ok);
    UpdaterGoesOn(cfg, s, resp, ok);
  }

  /** Without a cache path the file is never touched. */
  lemma {:induction false} NoPathNoFile(cfg: Config, s: State, ls: seq<Label>)
    requires !cfg.cachePathSet && Run(cfg, s, ls).Some?
    requires !s.worker.OpeningCache? && !s.worker.WritingCache? && !s.updater.OpeningCache? && !s.updater.WritingCache?
    ensures Run(cfg, s, ls).value.file == s.file
    decreases ls
  {
    if ls != [] {
      NoPathStep(cfg, s, ls[0]);
      NoPathNoFile(cfg, Step(cfg, s, ls[0]).value, ls[1..]);
    }
  }

  lemma NoPathStep(cfg: Config, s: State, l: Label)
    requires !cfg.cachePathSet && Step(cfg, s, l).Some?
    requires !s.worker.OpeningCache? && !s.worker.WritingCache? && !s.updater.OpeningCache? && !s.updater.WritingCache?
    ensures var s' := Step(cfg, s, l).value;
      && s'.file == s.file
      && !s'.worker.OpeningCache? && !s'.worker.WritingCache? && !s'.updater.OpeningCache? && !s'.updater.WritingCache?
  {
  }
}
