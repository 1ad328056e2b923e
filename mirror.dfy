/**
 * The mirror store: a fixed sequence of replica stores. Commands go to every
 * replica in order and stop at the first one that fails; listings are
 * merged; a file is read from the first replica that has it; writes go to
 * a stream on every replica. The replicas are distinct in-memory stores.
 */
module MirrorStore {
  import opened FileSystem
  import opened ByteStreams
  import opened RamStore

  // ---------------------------------------------------------------------
  // Commands fanned out to the replicas

  /** A command given to one replica; Write is writeTo, Commit the close of a stream. */
  datatype Command =
    | OpenCmd
    | CloseCmd
    | ChdirCmd(path: string)
    | PushdCmd(path: string)
    | PopdCmd
    | MkdirCmd(path: string)
    | RmdirCmd(path: string)
    | DeleteCmd(path: string)
    | WriteCmd(path: string)
    | CommitCmd(target: Target, bytes: seq<byte>)

  /** What one replica does with a command: its outcome and its new state. */
  function Apply(d: DiskState, c: Command): (r: (Outcome, DiskState))
    requires DiskValid(d)
    ensures DiskValid(r.1)
  {
    match c
    case OpenCmd => OpenSpec(d)
    case CloseCmd => (Pass, CloseSpec(d))
    case ChdirCmd(p) => ChdirValid(d, p); ChdirSpec(d, p)
    case PushdCmd(p) => ChdirValid(d, p); ChdirSpec(d, p)
    case PopdCmd => PopdValid(d); PopdSpec(d)
    case MkdirCmd(p) => MkdirValid(d, p); MkdirSpec(d, p)
    case RmdirCmd(p) => RmdirValid(d, p); RmdirSpec(d, p)
    case DeleteCmd(p) => DeleteValid(d, p); DeleteSpec(d, p)
    case WriteCmd(p) =>
      WriteToValid(d, p);
      var (t, d') := WriteToSpec(d, p);
      (if t.Ok? then Pass else Fail(t.error), d')
    case CommitCmd(t, bytes) => CommitValid(d, t, bytes); CommitSpec(d, t, bytes)
  }

  predicate AllDisksValid(ds: seq<DiskState>)
  {
    forall i :: 0 <= i < |ds| ==> DiskValid(ds[i])
  }

  /** The same command for each of n replicas. */
  function Repeat(c: Command, n: nat): (cs: seq<Command>)
    ensures |cs| == n && forall i :: 0 <= i < n ==> cs[i] == c
  {
    seq(n, _ => c)
  }

  /** What each replica would do with its own command, taken alone. */
  function Results(ds: seq<DiskState>, cs: seq<Command>): (rs: seq<(Outcome, DiskState)>)
    requires |ds| == |cs| && AllDisksValid(ds)
    ensures |rs| == |ds| && forall i :: 0 <= i < |ds| ==> rs[i] == Apply(ds[i], cs[i])
  {
    seq(|ds|, i requires 0 <= i < |ds| && |ds| == |cs| && AllDisksValid(ds) => Apply(ds[i], cs[i]))
  }

  /**
   * Replicas in order take their results until one fails: the outcome is
   * that failure, or success, and the new states of the replicas.
   */
  function Chain(ds: seq<DiskState>, rs: seq<(Outcome, DiskState)>): (r: (Outcome, seq<DiskState>))
    requires |ds| == |rs|
    ensures |r.1| == |ds|
    decreases |ds|
  {
    if ds == [] then (Pass, [])
    else
      var n := |ds| - 1;
      var (o, prefix) := Chain(ds[..n], rs[..n]);
      if o.Fail? then (o, prefix + [ds[n]]) else (rs[n].0, prefix + [rs[n].1])
  }

  /** The index of the first failing result, or the number of results when none fails. */
  function FirstFail(rs: seq<(Outcome, DiskState)>): (k: nat)
    ensures k <= |rs|
    ensures forall i :: 0 <= i < k ==> rs[i].0.Pass?
    ensures k < |rs| ==> rs[k].0.Fail?
    decreases |rs|
  {
    if rs == [] then 0
    else
      var n := |rs| - 1;
      var k := FirstFail(rs[..n]);
      if k < n then k
      else if rs[n].0.Fail? then n
      else |rs|
  }

  /**
   * The chain in full: every replica up to the first failing one takes its
   * result, every replica after it is untouched, and the outcome is that
   * failure, or success.
   */
  lemma {:induction false} ChainStops(ds: seq<DiskState>, rs: seq<(Outcome, DiskState)>)
    requires |ds| == |rs|
    ensures var k := FirstFail(rs);
      var (o, after) := Chain(ds, rs);
      (o == if k < |ds| then rs[k].0 else Pass) &&
      forall i :: 0 <= i < |ds| ==> after[i] == if i <= k then rs[i].1 else ds[i]
    decreases |ds|
  {
    if ds != [] {
      var n := |ds| - 1;
      ChainStops(ds[..n], rs[..n]);
      assert forall i :: 0 <= i < n ==> ds[..n][i] == ds[i] && rs[..n][i] == rs[i];
    }
  }

  /** Once a replica has failed, the chain leaves all the later ones as they are. */
  lemma {:induction false} ChainAfterFailure(ds: seq<DiskState>, rs: seq<(Outcome, DiskState)>, i: nat)
    requires |ds| == |rs| && i <= |ds|
    requires Chain(ds[..i], rs[..i]).0.Fail?
    ensures Chain(ds, rs) == (Chain(ds[..i], rs[..i]).0, Chain(ds[..i], rs[..i]).1 + ds[i..])
    decreases |ds| - i
  {
    if i < |ds| {
      var n := |ds| - 1;
      assert ds[..n][..i] == ds[..i] && rs[..n][..i] == rs[..i];
      ChainAfterFailure(ds[..n], rs[..n], i);
      var f := Chain(ds[..i], rs[..i]);
      assert ds[..n][i..] + [ds[n]] == ds[i..];
      assert (f.1 + ds[..n][i..]) + [ds[n]] == f.1 + ds[i..];
    } else {
      assert ds[..i] == ds && rs[..i] == rs;
      assert ds[i..] == [];
      assert Chain(ds, rs).1 + [] == Chain(ds, rs).1;
    }
  }

  /** One more replica, after replicas that have all succeeded, takes its result. */
  lemma ChainStep(ds: seq<DiskState>, rs: seq<(Outcome, DiskState)>, i: nat)
    requires |ds| == |rs| && i < |ds|
    requires Chain(ds[..i], rs[..i]).0.Pass?
    ensures Chain(ds[..i + 1], rs[..i + 1]) == (rs[i].0, Chain(ds[..i], rs[..i]).1 + [rs[i].1])
  {
    assert ds[..i + 1][..i] == ds[..i] && rs[..i + 1][..i] == rs[..i];
  }

  /**
   * Replica i takes its result, the others keeping their states: the chain
   * then covers the first i + 1 replicas.
   */
  lemma ChainAdvance(before: seq<DiskState>, rs: seq<(Outcome, DiskState)>, i: nat, was: seq<DiskState>,
                     now: seq<DiskState>)
    requires |before| == |rs| == |was| == |now| && i < |before|
    requires Chain(before[..i], rs[..i]) == (Pass, was[..i]) && was[i..] == before[i..]
    requires rs[i].1 == now[i] && forall j :: 0 <= j < |now| && j != i ==> now[j] == was[j]
    ensures Chain(before[..i + 1], rs[..i + 1]) == (rs[i].0, now[..i + 1]) && now[i + 1..] == before[i + 1..]
  {
    ChainStep(before, rs, i);
    assert was[..i] == now[..i];
    assert now[..i + 1] == now[..i] + [now[i]];
    assert forall j :: i + 1 <= j < |now| ==> now[j] == was[i..][j - i];
  }

  /**
   * The chain is over once every replica has taken its result or one has
   * failed: the replicas not reached are untouched.
   */
  lemma ChainDone(before: seq<DiskState>, rs: seq<(Outcome, DiskState)>, i: nat, o: Outcome, now: seq<DiskState>)
    requires |before| == |rs| == |now| && i <= |before| && (i == |before| || o.Fail?)
    requires Chain(before[..i], rs[..i]) == (o, now[..i]) && now[i..] == before[i..]
    ensures Chain(before, rs) == (o, now)
  {
    if i < |before| {
      ChainAfterFailure(before, rs, i);
      assert now == now[..i] + now[i..];
    } else {
      assert before[..i] == before && rs[..i] == rs && now[..i] == now;
    }
  }

  /**
   * Commands given to the replicas in order, replica i receiving cs[i],
   * until one fails: the outcome is that failure, or success, and the new
   * states of the replicas, each in its invariant.
   */
  function FanOut(ds: seq<DiskState>, cs: seq<Command>): (r: (Outcome, seq<DiskState>))
    requires |ds| == |cs| && AllDisksValid(ds)
    ensures |r.1| == |ds| && AllDisksValid(r.1)
  {
    var rs := Results(ds, cs);
    ChainStops(ds, rs);
    Chain(ds, rs)
  }

  /** The index of the first replica whose command fails, or the number of replicas when none does. */
  function FirstFailure(ds: seq<DiskState>, cs: seq<Command>): (k: nat)
    requires |ds| == |cs| && AllDisksValid(ds)
    ensures k <= |ds|
    ensures forall i :: 0 <= i < k ==> Apply(ds[i], cs[i]).0.Pass?
    ensures k < |ds| ==> Apply(ds[k], cs[k]).0.Fail?
  {
    FirstFail(Results(ds, cs))
  }

  /**
   * The fan-out in full: every replica before the first failing one has
   * done its command, the failing one has done it too (with whatever it
   * changed before failing), and every replica after it is untouched; the
   * outcome is that replica's failure, or success when there is none.
   */
  lemma FanOutStops(ds: seq<DiskState>, cs: seq<Command>)
    requires |ds| == |cs| && AllDisksValid(ds)
    ensures var k := FirstFailure(ds, cs);
      var (o, after) := FanOut(ds, cs);
      (o == if k < |ds| then Apply(ds[k], cs[k]).0 else Pass) &&
      forall i :: 0 <= i < |ds| ==> after[i] == if i <= k then Apply(ds[i], cs[i]).1 else ds[i]
  {
    ChainStops(ds, Results(ds, cs));
  }

  /** The closes of streams that writeTo(path) opened on the replicas, each given the same bytes. */
  function CloseAll(ds: seq<DiskState>, path: string, bytes: seq<byte>): (cs: seq<Command>)
    requires AllDisksValid(ds)
    ensures |cs| == |ds|
    ensures forall i :: 0 <= i < |ds| && WriteToSpec(ds[i], path).0.Ok? ==>
      cs[i] == CommitCmd(WriteToSpec(ds[i], path).0.value, bytes)
  {
    seq(|ds|, i requires 0 <= i < |ds| && AllDisksValid(ds) =>
      CommitCmd(match WriteToSpec(ds[i], path).0 case Ok(t) => t case Err(_) => NoNode, bytes))
  }

  /**
   * Writing through the mirror: when writeTo opens a stream on every
   * replica and the same bytes go to every stream, closing the streams
   * succeeds and every replica then holds those bytes at the path.
   */
  lemma {:induction false} MirrorWriteThenRead(ds: seq<DiskState>, path: string, bytes: seq<byte>)
    requires AllDisksValid(ds) && forall i :: 0 <= i < |ds| ==> Resolve(ds[i], path).parts != []
    requires FanOut(ds, Repeat(WriteCmd(path), |ds|)).0.Pass?
    ensures var mid := FanOut(ds, Repeat(WriteCmd(path), |ds|)).1;
      var (o, after) := FanOut(mid, CloseAll(ds, path, bytes));
      o == Pass && forall i :: 0 <= i < |ds| ==> ReadSpec(after[i], path) == Ok(bytes)
  {
    var ws := Repeat(WriteCmd(path), |ds|);
    FanOutStops(ds, ws);
    var mid := FanOut(ds, ws).1;
    var cs := CloseAll(ds, path, bytes);
    assert FirstFailure(ds, ws) == |ds|;
    forall i | 0 <= i < |ds|
      ensures Apply(mid[i], cs[i]).0 == Pass && ReadSpec(Apply(mid[i], cs[i]).1, path) == Ok(bytes)
    {
      assert ws[i] == WriteCmd(path) && mid[i] == Apply(ds[i], ws[i]).1;
      ReplicaWriteThenRead(ds[i], path, bytes);
    }
    FanOutStops(mid, cs);
    assert FirstFailure(mid, cs) == |ds|;
  }

  /** One replica: the stream writeTo opened, closed with the bytes, leaves them in the file. */
  lemma ReplicaWriteThenRead(d: DiskState, path: string, bytes: seq<byte>)
    requires DiskValid(d) && Resolve(d, path).parts != [] && Apply(d, WriteCmd(path)).0.Pass?
    ensures WriteToSpec(d, path).0.Ok?
    ensures var mid := Apply(d, WriteCmd(path)).1;
      var c := CommitCmd(WriteToSpec(d, path).0.value, bytes);
      Apply(mid, c).0 == Pass && ReadSpec(Apply(mid, c).1, path) == Ok(bytes)
  {
    WriteThenRead(d, path, bytes);
  }

  // ---------------------------------------------------------------------
  // Merged listings

  /** Each name of the second sequence not yet in the first one is appended, in order. */
  function AddNew(acc: seq<string>, names: seq<string>): (r: seq<string>)
    decreases |names|
  {
    if names == [] then acc
    else
      var a := AddNew(acc, names[..|names| - 1]);
      if names[|names| - 1] in a then a else a + [names[|names| - 1]]
  }

  predicate NoDuplicates(s: seq<string>)
  {
    forall i, j :: 0 <= i < j < |s| ==> s[i] != s[j]
  }

  /**
   * AddNew keeps what was there as a prefix, adds exactly the missing names
   * and never duplicates a name.
   */
  lemma {:induction false} AddNewUnion(acc: seq<string>, names: seq<string>)
    ensures |acc| <= |AddNew(acc, names)| && AddNew(acc, names)[..|acc|] == acc
    ensures forall x :: x in AddNew(acc, names) <==> x in acc || x in names
    ensures NoDuplicates(acc) ==> NoDuplicates(AddNew(acc, names))
    decreases |names|
  {
    if names != [] {
      var n := |names| - 1;
      AddNewUnion(acc, names[..n]);
      assert names == names[..n] + [names[n]];
      var a := AddNew(acc, names[..n]);
      if names[n] !in a {
        assert (a + [names[n]])[..|acc|] == a[..|acc|];
      }
    }
  }

  /**
   * The listings of the replicas merged in order: the first listing that
   * failed makes the merge fail.
   */
  function Merge(ls: seq<Result<seq<string>>>): Result<seq<string>>
    decreases |ls|
  {
    if ls == [] then Ok([])
    else
      var n := |ls| - 1;
      match Merge(ls[..n])
      case Err(e) => Err(e)
      case Ok(acc) =>
        match ls[n]
        case Err(e) => Err(e)
        case Ok(names) => Ok(AddNew(acc, names))
  }

  /** What each replica answers to ls(path). */
  function Listings(ds: seq<DiskState>, path: string): (ls: seq<Result<seq<string>>>)
    ensures |ls| == |ds| && forall i :: 0 <= i < |ds| ==> ls[i] == LsPathSpec(ds[i], path)
  {
    seq(|ds|, i requires 0 <= i < |ds| => LsPathSpec(ds[i], path))
  }

  /** The merge succeeds exactly when every listing does, and then fails with the first failure. */
  lemma {:induction false} MergeOk(ls: seq<Result<seq<string>>>)
    ensures Merge(ls).Ok? <==> forall i :: 0 <= i < |ls| ==> ls[i].Ok?
    ensures Merge(ls).Err? ==>
      exists k :: 0 <= k < |ls| && Merge(ls) == ls[k] && forall i :: 0 <= i < k ==> ls[i].Ok?
    decreases |ls|
  {
    if ls != [] {
      var n := |ls| - 1;
      MergeOk(ls[..n]);
      assert forall i :: 0 <= i < n ==> ls[..n][i] == ls[i];
      if Merge(ls[..n]).Err? {
        var k :| 0 <= k < n && Merge(ls[..n]) == ls[..n][k] && forall i :: 0 <= i < k ==> ls[..n][i].Ok?;
        assert Merge(ls) == ls[k];
      }
    }
  }

  /** A merged listing holds each name some listing holds, and each name only once. */
  lemma {:induction false} MergeMembers(ls: seq<Result<seq<string>>>)
    requires Merge(ls).Ok?
    ensures NoDuplicates(Merge(ls).value)
    ensures forall x :: x in Merge(ls).value <==> exists i :: 0 <= i < |ls| && ls[i].Ok? && x in ls[i].value
    decreases |ls|
  {
    if ls != [] {
      var n := |ls| - 1;
      MergeMembers(ls[..n]);
      var acc := Merge(ls[..n]).value;
      var names := ls[n].value;
      AddNewUnion(acc, names);
      forall x | x in Merge(ls).value
        ensures exists i :: 0 <= i < |ls| && ls[i].Ok? && x in ls[i].value
      {
        if x !in names {
          var i :| 0 <= i < n && ls[..n][i].Ok? && x in ls[..n][i].value;
          assert ls[..n][i] == ls[i];
        }
      }
      forall x | exists i :: 0 <= i < |ls| && ls[i].Ok? && x in ls[i].value
        ensures x in Merge(ls).value
      {
        var i :| 0 <= i < |ls| && ls[i].Ok? && x in ls[i].value;
        if i < n {
          assert ls[..n][i] == ls[i];
        }
      }
    }
  }

  /**
   * Names keep the order of their first appearance: the merge of the first
   * k listings is the start of the merge of them all.
   */
  lemma {:induction false} MergePrefix(ls: seq<Result<seq<string>>>, k: nat)
    requires k <= |ls| && Merge(ls).Ok?
    ensures Merge(ls[..k]).Ok? && Merge(ls[..k]).value <= Merge(ls).value
    decreases |ls|
  {
    if k < |ls| {
      var n := |ls| - 1;
      assert ls[..n][..k] == ls[..k];
      MergePrefix(ls[..n], k);
      AddNewUnion(Merge(ls[..n]).value, ls[n].value);
    } else {
      assert ls[..k] == ls;
    }
  }

  /** Once a listing has failed, the merge fails with that failure whatever follows. */
  lemma {:induction false} MergeAfterError(ls: seq<Result<seq<string>>>, i: nat)
    requires i <= |ls| && Merge(ls[..i]).Err?
    ensures Merge(ls) == Merge(ls[..i])
    decreases |ls| - i
  {
    if i < |ls| {
      var n := |ls| - 1;
      assert ls[..n][..i] == ls[..i];
      MergeAfterError(ls[..n], i);
    } else {
      assert ls[..i] == ls;
    }
  }

  /** One more listing: it either ends the merge with its failure or adds its new names. */
  lemma MergeStep(ls: seq<Result<seq<string>>>, i: nat)
    requires i < |ls| && Merge(ls[..i]).Ok?
    ensures ls[i].Err? ==> Merge(ls) == ls[i]
    ensures ls[i].Ok? ==> Merge(ls[..i + 1]) == Ok(AddNew(Merge(ls[..i]).value, ls[i].value))
  {
    assert ls[..i + 1][..i] == ls[..i] && ls[..i + 1][i] == ls[i];
    if ls[i].Err? {
      MergeAfterError(ls, i + 1);
    }
  }

  /** The names of one listing not yet in the merged listing are appended to it, in order. */
  method AddNames(acc: seq<string>, names: seq<string>) returns (r: seq<string>)
    ensures r == AddNew(acc, names)
  {
    r := acc;
    var j := 0;
    while j < |names|
      invariant 0 <= j <= |names|
      invariant r == AddNew(acc, names[..j])
    {
      assert names[..j + 1][..j] == names[..j];
      if names[j] !in r {
        r := r + [names[j]];
      }
      j := j + 1;
    }
    assert names[..j] == names;
  }

  // ---------------------------------------------------------------------
  // Reading from the first replica that has the file

  /** The index of the first replica on which the path is a file, or the number of replicas. */
  function FirstFile(ds: seq<DiskState>, path: string): (k: nat)
    ensures k <= |ds|
    ensures forall i :: 0 <= i < k ==> !IsFileSpec(ds[i], path)
    ensures k < |ds| ==> IsFileSpec(ds[k], path)
    decreases |ds|
  {
    if ds == [] then 0
    else if IsFileSpec(ds[0], path) then 0
    else 1 + FirstFile(ds[1..], path)
  }

  /** The first replica with the file is the one a scan in order stops at. */
  lemma FirstFileAt(ds: seq<DiskState>, path: string, i: nat)
    requires i <= |ds| && forall j :: 0 <= j < i ==> !IsFileSpec(ds[j], path)
    requires i < |ds| ==> IsFileSpec(ds[i], path)
    ensures FirstFile(ds, path) == i
  {
  }

  // ---------------------------------------------------------------------
  // The mirror as an object

  /** One replica does one command (other than writeTo and a stream's close). */
  method Perform(m: RamDisk, c: Command) returns (o: Outcome)
    requires m.Valid() && !c.WriteCmd? && !c.CommitCmd?
    modifies m
    ensures m.Valid() && (o, m.Model()) == Apply(old(m.Model()), c)
  {
    match c {
      case OpenCmd => o := m.Open();
      case CloseCmd => m.Close(); o := Pass;
      case ChdirCmd(p) => o := m.Chdir(p);
      case PushdCmd(p) => o := m.Pushd(p);
      case PopdCmd => o := m.Popd();
      case MkdirCmd(p) => o := m.Mkdir(p);
      case RmdirCmd(p) => o := m.Rmdir(p);
      case DeleteCmd(p) => o := m.Delete(p);
    }
  }

  /** A stream of replica m, whose state was d, bound to what writeTo(filename) created, with nothing written yet. */
  predicate BoundTo(s: RamOutputStream, m: RamDisk, d: DiskState, filename: string)
    reads s.buffer
  {
    s.disk == m && s.buffer.bytes == [] && Yields(d, filename, s.target)
  }

  /** `t` is what writeTo(filename) creates on a replica whose state is `d`. */
  predicate Yields(d: DiskState, filename: string, t: Target)
  {
    DiskValid(d) && WriteToSpec(d, filename).0 == Ok(t)
  }

  /** The streams opened so far, one for each of the first replicas, each with its own buffer. */
  predicate Opened(streams: seq<RamOutputStream>, ms: seq<RamDisk>, before: seq<DiskState>, filename: string)
    reads set j | 0 <= j < |streams| :: streams[j].buffer
  {
    AllBound(streams, ms, before, filename) && DistinctBuffers(streams)
  }

  /** Each of the streams is bound to the replica at the same position. */
  predicate AllBound(streams: seq<RamOutputStream>, ms: seq<RamDisk>, before: seq<DiskState>, filename: string)
    reads set j | 0 <= j < |streams| :: streams[j].buffer
  {
    |streams| <= |ms| && |streams| <= |before| &&
    forall j :: 0 <= j < |streams| ==> BoundTo(streams[j], ms[j], before[j], filename)
  }

  /** No two of the streams share a buffer. */
  predicate DistinctBuffers(streams: seq<RamOutputStream>)
  {
    forall j, k :: 0 <= j < k < |streams| ==> streams[j].buffer != streams[k].buffer
  }

  lemma OpenedAppend(streams: seq<RamOutputStream>, s: RamOutputStream, ms: seq<RamDisk>, before: seq<DiskState>,
                     filename: string)
    requires Opened(streams, ms, before, filename) && |streams| < |ms| && |streams| < |before|
    requires BoundTo(s, ms[|streams|], before[|streams|], filename)
    requires forall j :: 0 <= j < |streams| ==> streams[j].buffer != s.buffer
    ensures Opened(streams + [s], ms, before, filename)
  {
    AllBoundAppend(streams, s, ms, before, filename);
    DistinctAppend(streams, s);
  }

  lemma {:induction false} AllBoundAppend(streams: seq<RamOutputStream>, s: RamOutputStream, ms: seq<RamDisk>,
                                          before: seq<DiskState>, filename: string)
    requires AllBound(streams, ms, before, filename) && |streams| < |ms| && |streams| < |before|
    requires BoundTo(s, ms[|streams|], before[|streams|], filename)
    ensures AllBound(streams + [s], ms, before, filename)
  {
    var t := streams + [s];
    forall j | 0 <= j < |t|
      ensures BoundTo(t[j], ms[j], before[j], filename)
    {
      if j < |streams| {
        assert t[j] == streams[j];
      }
    }
  }

  lemma {:induction false} DistinctAppend(streams: seq<RamOutputStream>, s: RamOutputStream)
    requires DistinctBuffers(streams)
    requires forall j :: 0 <= j < |streams| ==> streams[j].buffer != s.buffer
    ensures DistinctBuffers(streams + [s])
  {
    var t := streams + [s];
    forall j, k | 0 <= j < k < |t|
      ensures t[j].buffer != t[k].buffer
    {
      assert t[j] == streams[j];
      if k < |streams| {
        assert t[k] == streams[k];
      }
    }
  }

  class Mirror {
    const mirrors: seq<RamDisk>

    function Repr(): set<RamDisk>
    {
      set i | 0 <= i < |mirrors| :: mirrors[i]
    }

    /** Distinct replicas, each in its invariant. */
    predicate Valid()
      reads Repr()
    {
      (forall i, j :: 0 <= i < j < |mirrors| ==> mirrors[i] != mirrors[j]) &&
      forall i :: 0 <= i < |mirrors| ==> mirrors[i].Valid()
    }

    /** The states of the replicas, in order. */
    function Models(): (ms: seq<DiskState>)
      reads Repr()
      ensures |ms| == |mirrors| && forall i :: 0 <= i < |mirrors| ==> ms[i] == mirrors[i].Model()
    {
      seq(|mirrors|, i reads Repr() requires 0 <= i < |mirrors| => mirrors[i].Model())
    }

    constructor (systems: seq<RamDisk>)
      ensures mirrors == systems
    {
      mirrors := systems;
    }

    /** Replica i does the command, after replicas 0 to i - 1 have done it without failure. */
    method RunAt(i: nat, c: Command, ghost before: seq<DiskState>, ghost rs: seq<(Outcome, DiskState)>) returns (o: Outcome)
      requires Valid() && i < |mirrors| && !c.WriteCmd? && !c.CommitCmd?
      requires |before| == |rs| == |mirrors| && AllDisksValid(before) && rs[i] == Apply(before[i], c)
      requires Chain(before[..i], rs[..i]) == (Pass, Models()[..i]) && Models()[i..] == before[i..]
      modifies mirrors[i]
      ensures Valid()
      ensures Chain(before[..i + 1], rs[..i + 1]) == (o, Models()[..i + 1]) && Models()[i + 1..] == before[i + 1..]
    {
      var m := mirrors[i];
      ghost var was := Models();
      assert was[i..][0] == was[i] && before[i..][0] == before[i];
      o := Perform(m, c);
      ChainAdvance(before, rs, i, was, Models());
    }

    /**
     * The loop shared by open, close, chdir, pushd, popd, mkdir, rmdir and
     * delete: the command goes to each replica in order until one fails.
     */
    method Run(c: Command) returns (o: Outcome)
      requires Valid() && !c.WriteCmd? && !c.CommitCmd?
      modifies Repr()
      ensures Valid()
      ensures (o, Models()) == FanOut(old(Models()), Repeat(c, |mirrors|))
    {
      ghost var before := Models();
      ghost var cs := Repeat(c, |mirrors|);
      ghost var rs := Results(before, cs);
      var i := 0;
      o := Pass;
      assert before[..0] == [] && Models()[..0] == [];
      while i < |mirrors| && o.Pass?
        invariant 0 <= i <= |mirrors| && Valid()
        invariant Chain(before[..i], rs[..i]) == (o, Models()[..i])
        invariant Models()[i..] == before[i..]
        decreases |mirrors| - i
      {
        o := RunAt(i, c, before, rs);
        i := i + 1;
      }
      ChainDone(before, rs, i, o, Models());
    }

    method Open() returns (o: Outcome)
      requires Valid()
      modifies Repr()
      ensures Valid() && (o, Models()) == FanOut(old(Models()), Repeat(OpenCmd, |mirrors|))
    {
      o := Run(OpenCmd);
    }

    method Close() returns (o: Outcome)
      requires Valid()
      modifies Repr()
      ensures Valid() && (o, Models()) == FanOut(old(Models()), Repeat(CloseCmd, |mirrors|))
    {
      o := Run(CloseCmd);
    }

    method Chdir(path: string) returns (o: Outcome)
      requires Valid()
      modifies Repr()
      ensures Valid() && (o, Models()) == FanOut(old(Models()), Repeat(ChdirCmd(path), |mirrors|))
    {
      o := Run(ChdirCmd(path));
    }

    method Pushd(path: string) returns (o: Outcome)
      requires Valid()
      modifies Repr()
      ensures Valid() && (o, Models()) == FanOut(old(Models()), Repeat(PushdCmd(path), |mirrors|))
    {
      o := Run(PushdCmd(path));
    }

    method Popd() returns (o: Outcome)
      requires Valid()
      modifies Repr()
      ensures Valid() && (o, Models()) == FanOut(old(Models()), Repeat(PopdCmd, |mirrors|))
    {
      o := Run(PopdCmd);
    }

    method Mkdir(path: string) returns (o: Outcome)
      requires Valid()
      modifies Repr()
      ensures Valid() && (o, Models()) == FanOut(old(Models()), Repeat(MkdirCmd(path), |mirrors|))
    {
      o := Run(MkdirCmd(path));
    }

    method Rmdir(path: string) returns (o: Outcome)
      requires Valid()
      modifies Repr()
      ensures Valid() && (o, Models()) == FanOut(old(Models()), Repeat(RmdirCmd(path), |mirrors|))
    {
      o := Run(RmdirCmd(path));
    }

    method Delete(path: string) returns (o: Outcome)
      requires Valid()
      modifies Repr()
      ensures Valid() && (o, Models()) == FanOut(old(Models()), Repeat(DeleteCmd(path), |mirrors|))
    {
      o := Run(DeleteCmd(path));
    }

    /** ls(path): the replicas' listings merged, names in order of first appearance. */
    method LsPath(path: string) returns (r: Result<seq<string>>)
      ensures r == Merge(Listings(Models(), path))
    {
      ghost var ms := Models();
      ghost var ls := Listings(ms, path);
      var contents: seq<string> := [];
      var i := 0;
      assert ls[..0] == [];
      while i < |mirrors|
        invariant 0 <= i <= |mirrors| && Models() == ms
        invariant Merge(ls[..i]) == Ok(contents)
      {
        var listing := mirrors[i].LsPath(path);
        assert Models() == ms && listing == ls[i];
        MergeStep(ls, i);
        if listing.Err? {
          return Err(listing.error);
        }
        contents := AddNames(contents, listing.value);
        i := i + 1;
      }
      assert ls[..i] == ls;
      r := Ok(contents);
    }

    /** ls(): ls(path) on the working directory of replica 0, which must exist. */
    method Ls() returns (r: Result<seq<string>>)
      ensures |mirrors| == 0 ==> r == Err(IndexOutOfBounds)
      ensures |mirrors| > 0 ==> r == Merge(Listings(Models(), PwdSpec(Models()[0])))
    {
      if |mirrors| == 0 {
        return Err(IndexOutOfBounds);
      }
      var wd := mirrors[0].Pwd();
      r := LsPath(wd);
    }

    /** pwd: the working directory of replica 0, which must exist. */
    method Pwd() returns (r: Result<string>)
      ensures r == if |mirrors| == 0 then Err(IndexOutOfBounds) else Ok(PwdSpec(Models()[0]))
    {
      if |mirrors| == 0 {
        return Err(IndexOutOfBounds);
      }
      var wd := mirrors[0].Pwd();
      r := Ok(wd);
    }

    /** isDirectory: some replica has a folder at the path. */
    method IsDirectory(path: string) returns (b: bool)
      ensures b <==> exists i :: 0 <= i < |mirrors| && IsDirSpec(Models()[i], path)
    {
      var i := 0;
      while i < |mirrors|
        invariant 0 <= i <= |mirrors|
        invariant forall j :: 0 <= j < i ==> !IsDirSpec(mirrors[j].Model(), path)
      {
        var here := mirrors[i].IsDirectory(path);
        if here {
          assert IsDirSpec(Models()[i], path);
          return true;
        }
        i := i + 1;
      }
      b := false;
    }

    /** isFile: some replica has a file at the path. */
    method IsFile(path: string) returns (b: bool)
      ensures b <==> exists i :: 0 <= i < |mirrors| && IsFileSpec(Models()[i], path)
    {
      var i := 0;
      while i < |mirrors|
        invariant 0 <= i <= |mirrors|
        invariant forall j :: 0 <= j < i ==> !IsFileSpec(mirrors[j].Model(), path)
      {
        var here := mirrors[i].IsFile(path);
        if here {
          assert IsFileSpec(Models()[i], path);
          return true;
        }
        i := i + 1;
      }
      b := false;
    }

    /** The scan shared by getSize and readFrom: the first replica on which the path is a file. */
    method FindFile(path: string) returns (k: nat)
      ensures k == FirstFile(Models(), path)
    {
      k := 0;
      while k < |mirrors|
        invariant 0 <= k <= |mirrors|
        invariant forall j :: 0 <= j < k ==> !IsFileSpec(mirrors[j].Model(), path)
      {
        var here := mirrors[k].IsFile(path);
        if here {
          break;
        }
        k := k + 1;
      }
      FirstFileAt(Models(), path, k);
    }

    /** getSize: the size on the first replica that has the file; none having it is an error. */
    method GetSize(path: string) returns (r: Result<nat>)
      ensures var k := FirstFile(Models(), path);
        (k == |mirrors| ==> r == Err(FileNotFound)) && (k < |mirrors| ==> r == SizeSpec(mirrors[k].Model(), path))
    {
      var k := FindFile(path);
      if k < |mirrors| {
        r := mirrors[k].GetSize(path);
      } else {
        r := Err(FileNotFound);
      }
    }

    /** readFrom: a stream on the first replica that has the file; none having it is an error. */
    method ReadFrom(filename: string) returns (r: Result<ByteInputStream>)
      ensures var k := FirstFile(Models(), filename);
        (k == |mirrors| ==> r == Err(FileNotFound)) &&
        (k < |mirrors| ==>
          r.Ok? && fresh(r.value) && r.value.Valid() && Ok(r.value.Remaining()) == ReadSpec(mirrors[k].Model(), filename))
    {
      var k := FindFile(filename);
      if k < |mirrors| {
        r := mirrors[k].ReadFrom(filename);
      } else {
        r := Err(FileNotFound);
      }
    }

    /** Replica i opens its stream, after replicas 0 to i - 1 have opened theirs. */
    method OpenAt(i: nat, filename: string, ghost before: seq<DiskState>, ghost rs: seq<(Outcome, DiskState)>)
      returns (r: Result<RamOutputStream>)
      requires Valid() && i < |mirrors|
      requires |before| == |rs| == |mirrors| && AllDisksValid(before) && rs[i] == Apply(before[i], WriteCmd(filename))
      requires Chain(before[..i], rs[..i]) == (Pass, Models()[..i]) && Models()[i..] == before[i..]
      modifies mirrors[i]
      ensures Valid()
      ensures Chain(before[..i + 1], rs[..i + 1]).1 == Models()[..i + 1] && Models()[i + 1..] == before[i + 1..]
      ensures r.Ok? ==> Chain(before[..i + 1], rs[..i + 1]).0 == Pass
      ensures r.Err? ==> Chain(before[..i + 1], rs[..i + 1]).0 == Fail(r.error)
      ensures r.Ok? ==> fresh(r.value.buffer) && BoundTo(r.value, mirrors[i], before[i], filename)
    {
      var m := mirrors[i];
      ghost var was := Models();
      assert was[i..][0] == was[i] && before[i..][0] == before[i];
      r := m.WriteTo(filename);
      ChainAdvance(before, rs, i, was, Models());
    }

    /** OpenAt, adding the new stream to those opened so far. */
    method WriteAt(i: nat, filename: string, ghost before: seq<DiskState>, ghost rs: seq<(Outcome, DiskState)>,
                   streams: seq<RamOutputStream>)
      returns (o: Outcome, streams': seq<RamOutputStream>)
      requires Valid() && i < |mirrors|
      requires |before| == |rs| == |mirrors| && AllDisksValid(before) && rs[i] == Apply(before[i], WriteCmd(filename))
      requires Chain(before[..i], rs[..i]) == (Pass, Models()[..i]) && Models()[i..] == before[i..]
      requires |streams| == i && Opened(streams, mirrors, before, filename)
      modifies mirrors[i]
      ensures Valid()
      ensures Chain(before[..i + 1], rs[..i + 1]) == (o, Models()[..i + 1]) && Models()[i + 1..] == before[i + 1..]
      ensures o.Pass? ==> |streams'| == i + 1 && Opened(streams', mirrors, before, filename)
    {
      var r := OpenAt(i, filename, before, rs);
      o := if r.Ok? then Pass else Fail(r.error);
      if r.Ok? {
        assert forall j :: 0 <= j < i ==> streams[j].buffer != r.value.buffer;
        OpenedAppend(streams, r.value, mirrors, before, filename);
        streams' := streams + [r.value];
      } else {
        streams' := streams;
      }
    }

    /**
     * writeTo: a stream is opened on every replica in order, each creating
     * its file; the first replica that cannot open one makes writeTo fail,
     * with the files of the earlier replicas already created.
     */
    method WriteTo(filename: string) returns (r: Result<MirrorOutputStream>)
      requires Valid()
      modifies Repr()
      ensures Valid()
      ensures var (o, after) := FanOut(old(Models()), Repeat(WriteCmd(filename), |mirrors|));
        Models() == after && (o.Fail? ==> r == Err(o.error)) &&
        (o.Pass? ==> (r.Ok? && fresh(r.value) && r.value.Valid() && |r.value.streams| == |mirrors| &&
          Opened(r.value.streams, mirrors, old(Models()), filename)))
    {
      ghost var before := Models();
      ghost var cs := Repeat(WriteCmd(filename), |mirrors|);
      ghost var rs := Results(before, cs);
      var o, streams := OpenStreams(filename, before, rs);
      if o.Fail? {
        return Err(o.error);
      }
      var out := new MirrorOutputStream(streams);
      r := Ok(out);
    }

    /** The loop of writeTo: a stream on each replica in order, until one fails. */
    method OpenStreams(filename: string, ghost before: seq<DiskState>, ghost rs: seq<(Outcome, DiskState)>)
      returns (o: Outcome, streams: seq<RamOutputStream>)
      requires Valid() && before == Models()
      requires rs == Results(before, Repeat(WriteCmd(filename), |mirrors|))
      modifies Repr()
      ensures Valid() && Chain(before, rs) == (o, Models())
      ensures o.Pass? ==> |streams| == |mirrors| && Opened(streams, mirrors, before, filename)
    {
      streams := [];
      var i := 0;
      o := Pass;
      assert before[..0] == [] && Models()[..0] == [];
      while i < |mirrors| && o.Pass?
        invariant 0 <= i <= |mirrors| && Valid()
        invariant Chain(before[..i], rs[..i]) == (o, Models()[..i])
        invariant Models()[i..] == before[i..]
        invariant o.Pass? ==> |streams| == i && Opened(streams, mirrors, before, filename)
        decreases |mirrors| - i
      {
        o, streams := WriteAt(i, filename, before, rs, streams);
        i := i + 1;
      }
      ChainDone(before, rs, i, o, Models());
    }
  }

  /** The stream writeTo returns: one stream per replica, written and closed together. */
  class MirrorOutputStream {
    const streams: seq<RamOutputStream>

    function Buffers(): set<ByteOutputStream>
    {
      set i | 0 <= i < |streams| :: streams[i].buffer
    }

    function Disks(): set<RamDisk>
    {
      set i | 0 <= i < |streams| :: streams[i].disk
    }

    /** Each stream has its own buffer and its own replica. */
    predicate Valid()
    {
      forall i, j :: 0 <= i < j < |streams| ==> streams[i].buffer != streams[j].buffer && streams[i].disk != streams[j].disk
    }

    /** The bytes each stream has buffered so far. */
    function Written(): (w: seq<seq<byte>>)
      reads Buffers()
      ensures |w| == |streams| && forall i :: 0 <= i < |streams| ==> w[i] == streams[i].buffer.bytes
    {
      seq(|streams|, i reads Buffers() requires 0 <= i < |streams| => streams[i].buffer.bytes)
    }

    /** The states of the replicas the streams write to. */
    function DiskModels(): (ms: seq<DiskState>)
      reads Disks()
      ensures |ms| == |streams| && forall i :: 0 <= i < |streams| ==> ms[i] == streams[i].disk.Model()
    {
      seq(|streams|, i reads Disks() requires 0 <= i < |streams| => streams[i].disk.Model())
    }

    /** The close of each stream, as a command for its replica. */
    function Commits(): (cs: seq<Command>)
      reads Buffers()
      ensures |cs| == |streams|
      ensures forall i :: 0 <= i < |streams| ==> cs[i] == CommitCmd(streams[i].target, streams[i].buffer.bytes)
    {
      seq(|streams|, i reads Buffers() requires 0 <= i < |streams| => CommitCmd(streams[i].target, streams[i].buffer.bytes))
    }

    constructor (streams: seq<RamOutputStream>)
      requires forall i, j :: 0 <= i < j < |streams| ==>
        streams[i].buffer != streams[j].buffer && streams[i].disk != streams[j].disk
      ensures this.streams == streams && Valid()
    {
      this.streams := streams;
    }

    /** write(int): the byte goes to every stream. */
    method Write(b: int)
      requires Valid()
      modifies Buffers()
      ensures forall i :: 0 <= i < |streams| ==> Written()[i] == old(Written()[i]) + [LowByte(b)]
    {
      ghost var before := Written();
      var i := 0;
      while i < |streams|
        invariant 0 <= i <= |streams|
        invariant forall j :: 0 <= j < i ==> streams[j].buffer.bytes == before[j] + [LowByte(b)]
        invariant forall j :: i <= j < |streams| ==> streams[j].buffer.bytes == before[j]
      {
        streams[i].Write(b);
        i := i + 1;
      }
    }

    /**
     * write(b, off, len): the range goes to every stream; a range outside
     * the array fails at the first stream, before anything is written, and
     * with no stream at all nothing is checked.
     */
    method WriteRange(b: array<byte>, off: int, len: int) returns (o: Outcome)
      requires Valid()
      modifies Buffers()
      ensures RangeOk(b.Length, off, len) ==>
        o == Pass && forall i :: 0 <= i < |streams| ==> Written()[i] == old(Written()[i]) + b[off..off + len]
      ensures !RangeOk(b.Length, off, len) ==> Written() == old(Written())
      ensures !RangeOk(b.Length, off, len) && |streams| > 0 ==> o == Fail(IndexOutOfBounds)
      ensures |streams| == 0 ==> o == Pass
    {
      ghost var before := Written();
      var i := 0;
      o := Pass;
      while i < |streams|
        invariant 0 <= i <= |streams| && o == Pass
        invariant i > 0 ==> RangeOk(b.Length, off, len)
        invariant forall j :: 0 <= j < i ==> streams[j].buffer.bytes == before[j] + b[off..off + len]
        invariant forall j :: i <= j < |streams| ==> streams[j].buffer.bytes == before[j]
      {
        o := streams[i].WriteRange(b, off, len);
        if o.Fail? {
          assert Written() == before;
          return;
        }
        i := i + 1;
      }
      assert !RangeOk(b.Length, off, len) ==> Written() == before;
    }

    predicate DisksValid()
      reads Disks()
    {
      forall i :: 0 <= i < |streams| ==> streams[i].disk.Valid()
    }

    /** Stream i is closed, after streams 0 to i - 1 were closed without failure. */
    method CloseAt(i: nat, ghost before: seq<DiskState>, ghost cs: seq<Command>, ghost rs: seq<(Outcome, DiskState)>)
      returns (o: Outcome)
      requires Valid() && DisksValid() && i < |streams|
      requires |before| == |cs| == |rs| == |streams| && AllDisksValid(before) && cs == Commits()
      requires rs[i] == Apply(before[i], cs[i])
      requires Chain(before[..i], rs[..i]) == (Pass, DiskModels()[..i]) && DiskModels()[i..] == before[i..]
      modifies streams[i].disk
      ensures DisksValid() && cs == Commits()
      ensures Chain(before[..i + 1], rs[..i + 1]) == (o, DiskModels()[..i + 1])
      ensures DiskModels()[i + 1..] == before[i + 1..]
    {
      ghost var was := DiskModels();
      assert was[i..][0] == was[i] && before[i..][0] == before[i];
      o := streams[i].Close();
      ChainAdvance(before, rs, i, was, DiskModels());
    }

    /**
     * close: every stream is closed in order, each giving its bytes to its
     * replica's file, until one fails.
     */
    method Close() returns (o: Outcome)
      requires Valid() && DisksValid()
      modifies Disks()
      ensures DisksValid()
      ensures (o, DiskModels()) == FanOut(old(DiskModels()), old(Commits()))
    {
      ghost var before := DiskModels();
      ghost var cs := Commits();
      ghost var rs := Results(before, cs);
      var i := 0;
      o := Pass;
      assert before[..0] == [] && DiskModels()[..0] == [];
      while i < |streams| && o.Pass?
        invariant 0 <= i <= |streams| && DisksValid() && cs == Commits()
        invariant Chain(before[..i], rs[..i]) == (o, DiskModels()[..i])
        invariant DiskModels()[i..] == before[i..]
        decreases |streams| - i
      {
        o := CloseAt(i, before, cs, rs);
        i := i + 1;
      }
      ChainDone(before, rs, i, o, DiskModels());
    }
  }
}
