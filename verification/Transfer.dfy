/**
 The transfer manager: a one-use handoff kept in an in-memory map, a persisted
 list of operations and an artifact store. Writes to either store may fail and
 the process may stop between them; those outcomes are parameters of the steps.
 */
module Transfers {
  import opened ByteStrings
  import opened Ciphers

  datatype Pending = Pending(
    transferId: string,
    vaultId: string,
    secretHash: Bytes,
    staged: bool,
    byteLength: nat,
    digest: Bytes)

  datatype Summary = Summary(transferId: string, vaultId: string, byteLength: nat, digest: Bytes)

  datatype Failure =
    | InvalidSecret | AuthenticationFailed | NotFound | AlreadyStaged | WrongSecret
    | ArtifactWriteFailed | ArtifactDeleteFailed | ArtifactMissing | IntegrityFailed | PersistFailed

  datatype Result<+T> = Ok(value: T) | Err(failure: Failure)

  const SUFFIX := ".transfer"
  const MAGIC: Bytes := [0x41, 0x57, 0x53, 0x4d, 0x54, 0x52, 0x31]

  function ArtifactId(transferId: string): string {
    transferId + SUFFIX
  }

  lemma ArtifactIdInjective(a: string, b: string)
    requires ArtifactId(a) == ArtifactId(b)
    ensures a == b
  {
    assert a == ArtifactId(a)[..|a|] && b == ArtifactId(b)[..|b|];
  }

  // ----- The envelope -----

  function Seal(c: Cipher, key: Bytes, nonce: Bytes, plaintext: Bytes): Bytes
    requires |nonce| == NONCE_LENGTH
  {
    MAGIC + nonce + c.seal(key, nonce, plaintext, MAGIC)
  }

  function Open(c: Cipher, key: Bytes, envelope: Bytes): Option<Bytes> {
    var end := |MAGIC| + NONCE_LENGTH;
    if |envelope| < |MAGIC| || envelope[..|MAGIC|] != MAGIC || |envelope| <= end then None
    else c.open(key, envelope[|MAGIC|..end], envelope[end..], MAGIC)
  }

  lemma OpenUndoesSeal(c: Cipher, key: Bytes, nonce: Bytes, plaintext: Bytes)
    requires Lawful(c) && |nonce| == NONCE_LENGTH
    ensures Open(c, key, Seal(c, key, nonce, plaintext)) == Some(plaintext)
  {
    var sealed := c.seal(key, nonce, plaintext, MAGIC);
    var e := Seal(c, key, nonce, plaintext);
    var end := |MAGIC| + NONCE_LENGTH;
    assert e[..|MAGIC|] == MAGIC && e[|MAGIC|..end] == nonce && e[end..] == sealed;
    assert c.open(key, nonce, sealed, MAGIC) == Some(plaintext);
  }

  /**
   Under the exact cipher law an envelope opens exactly when it is the magic, a nonce, and the plaintext sealed
   under the key and that nonce with the magic authenticated.
   */
  lemma OpensIffSealed(c: Cipher, key: Bytes, envelope: Bytes, p: Bytes)
    requires Exact(c)
    ensures Open(c, key, envelope) == Some(p) <==>
      |envelope| >= 31 && envelope[..7] == [0x41, 0x57, 0x53, 0x4D, 0x54, 0x52, 0x31] &&
      envelope[31..] == c.seal(key, envelope[7..31], p, envelope[..7])
  {
    if Open(c, key, envelope) == Some(p) {
      var end := |MAGIC| + NONCE_LENGTH;
      var nonce := envelope[|MAGIC|..end];
      assert c.seal(key, nonce, p, MAGIC) == envelope[end..];
      assert envelope == envelope[..|MAGIC|] + nonce + envelope[end..];
    }
    if |envelope| >= 31 && envelope[..7] == MAGIC && envelope[31..] == c.seal(key, envelope[7..31], p, envelope[..7]) {
      assert envelope == envelope[..7] + envelope[7..31] + envelope[31..];
      OpenUndoesSeal(c, key, envelope[7..31], p);
    }
  }

  // ----- What the manager and its two stores hold -----

  datatype World = World(
    pending: map<string, Pending>,
    persisted: Option<seq<Pending>>,
    artifacts: map<string, Bytes>)

  const EMPTY := World(map[], None, map[])

  /** `values` lists the values of the map, in whatever order it was iterated. */
  ghost predicate Lists(values: seq<Pending>, m: map<string, Pending>) {
    && (forall k | k in m :: m[k] in values)
    && (forall v | v in values :: exists k | k in m :: m[k] == v)
  }

  ghost predicate Loadable(values: seq<Pending>) {
    forall v | v in values :: v.transferId != "" && v.secretHash != []
  }

  /** Only staged operations come back; later list entries win. */
  function Load(values: seq<Pending>): map<string, Pending> {
    if values == [] then map[]
    else
      var last := values[|values| - 1];
      var m := Load(values[..|values| - 1]);
      if last.staged then m[last.transferId := last] else m
  }

  function Restarted(w: World): World {
    w.(pending := if w.persisted.None? then map[] else Load(w.persisted.value))
  }

  function Begun(w: World, value: Pending, values: seq<Pending>, stateOk: bool): World {
    if stateOk then w.(pending := w.pending[value.transferId := value], persisted := Some(values))
    else w.(pending := w.pending[value.transferId := value] - {value.transferId})
  }

  function StageCheck(hash: Hash, c: Cipher, w: World, id: string, secret: Option<Bytes>, envelope: Bytes)
    : Result<Bytes>
  {
    if secret.None? then Err(InvalidSecret)
    else
      var plaintext := Open(c, secret.value, envelope);
      if plaintext.None? then Err(AuthenticationFailed)
      else if id !in w.pending then Err(NotFound)
      else if w.pending[id].staged then Err(AlreadyStaged)
      else if hash(secret.value) != w.pending[id].secretHash then Err(WrongSecret)
      else Ok(plaintext.value)
  }

  function StagedValue(hash: Hash, value: Pending, plaintext: Bytes): Pending {
    value.(staged := true, byteLength := |plaintext|, digest := hash(plaintext))
  }

  /** The stores after the artifact write of a `Stage` that passed its checks. */
  function Written(w: World, id: string, plaintext: Bytes): World {
    w.(artifacts := w.artifacts[ArtifactId(id) := plaintext])
  }

  function Committed(w: World, id: string, staged: Pending, values: seq<Pending>): World {
    w.(pending := w.pending[id := staged], persisted := Some(values))
  }

  /** A failed persist deletes the artifact, if it can, and clears only the staged flag. */
  function RolledBack(w: World, id: string, staged: Pending, deleteOk: bool): World {
    w.(pending := w.pending[id := staged.(staged := false)],
       artifacts := if deleteOk then w.artifacts - {ArtifactId(id)} else w.artifacts)
  }

  function Removed(w: World, id: string, values: seq<Pending>, stateOk: bool): World {
    w.(pending := w.pending - {id},
       artifacts := w.artifacts - {ArtifactId(id)},
       persisted := if stateOk then Some(values) else w.persisted)
  }

  function SummaryOf(v: Pending): Summary {
    Summary(v.transferId, v.vaultId, v.byteLength, v.digest)
  }

  /** The second half of `OpenStaged`, after the operation was looked up. */
  function ReadStaged(hash: Hash, artifacts: map<string, Bytes>, id: string, v: Pending): Result<(Bytes, Summary)> {
    if ArtifactId(id) !in artifacts then Err(ArtifactMissing)
    else
      var bytes := artifacts[ArtifactId(id)];
      if hash(bytes) != v.digest || |bytes| != v.byteLength then Err(IntegrityFailed)
      else Ok((bytes, SummaryOf(v)))
  }

  // ----- Runs -----

  datatype Event = Staged(id: string, plaintext: Bytes) | Opened(id: string, bytes: Bytes, summary: Summary)

  /**
   `begun` holds what every `Begin` was called for and generated; `presented` holds the secret with which each
   committed `Stage` was called; `readers` are calls of `OpenStaged` between lookup and read.
   */
  datatype System = System(
    world: World,
    readers: map<nat, Reader>,
    begun: map<string, Start>,
    presented: map<string, Bytes>,
    log: seq<Event>)

  datatype Start = Start(vaultId: string, secret: Bytes)

  datatype Reader = Reader(id: string, value: Pending)

  const INITIAL := System(EMPTY, map[], map[], map[], [])

  datatype Action =
    | Begin(id: string, vaultId: string, generated: Bytes, values: seq<Pending>, stateOk: bool)
    | Stage(id: string, secret: Option<Bytes>, envelope: Bytes, artifactOk: bool, values: seq<Pending>,
            stateOk: bool, deleteOk: bool)
    | StageCrash(id: string, secret: Option<Bytes>, envelope: Bytes)
    | Lookup(reader: nat, id: string)
    | Read(reader: nat)
    | Remove(id: string, deleteFails: bool, values: seq<Pending>, stateOk: bool)
    | Restart

  function FreshPending(hash: Hash, id: string, vaultId: string, secret: Bytes): Pending {
    Pending(id, vaultId, hash(secret), false, 0, [])
  }

  /** Generated identifiers are fresh and nonempty, and a persisted list is a listing of the map it saves. */
  ghost predicate Enabled(hash: Hash, c: Cipher, s: System, a: Action) {
    match a
    case Begin(id, vaultId, secret, values, _) =>
      && id !in s.begun && id != "" && vaultId != ""
      && Lists(values, s.world.pending[id := FreshPending(hash, id, vaultId, secret)])
    case Stage(id, secret, envelope, _, values, _, _) =>
      var r := StageCheck(hash, c, s.world, id, secret, envelope);
      r.Ok? ==> Lists(values, s.world.pending[id := StagedValue(hash, s.world.pending[id], r.value)])
    case StageCrash(_, _, _) => true
    case Lookup(_, _) => true
    case Read(reader) => reader in s.readers
    case Remove(id, _, values, _) => Lists(values, s.world.pending - {id})
    case Restart => true
  }

  function StageStep(hash: Hash, c: Cipher, s: System, a: Action): System
    requires a.Stage?
  {
    var r := StageCheck(hash, c, s.world, a.id, a.secret, a.envelope);
    if r.Err? || !a.artifactOk then s
    else
      var staged := StagedValue(hash, s.world.pending[a.id], r.value);
      var written := Written(s.world, a.id, r.value);
      if a.stateOk then s.(world := Committed(written, a.id, staged, a.values),
                           presented := s.presented[a.id := a.secret.value], log := s.log + [Staged(a.id, r.value)])
      else s.(world := RolledBack(written, a.id, staged, a.deleteOk))
  }

  ghost function Step(hash: Hash, c: Cipher, s: System, a: Action): System {
    if !Enabled(hash, c, s, a) then s else
    match a
    case Begin(id, vaultId, secret, values, stateOk) =>
      s.(world := Begun(s.world, FreshPending(hash, id, vaultId, secret), values, stateOk),
         begun := s.begun[id := Start(vaultId, secret)])
    case Stage(_, _, _, _, _, _, _) => StageStep(hash, c, s, a)
    case StageCrash(id, secret, envelope) =>
      var r := StageCheck(hash, c, s.world, id, secret, envelope);
      if r.Err? then s
      else s.(world := Restarted(Written(s.world, id, r.value)), readers := map[])
    case Lookup(reader, id) =>
      if id in s.world.pending && s.world.pending[id].staged
      then s.(readers := s.readers[reader := Reader(id, s.world.pending[id])]) else s
    case Read(reader) =>
      var Reader(id, v) := s.readers[reader];
      var r := ReadStaged(hash, s.world.artifacts, id, v);
      var done := s.(readers := s.readers - {reader});
      if r.Ok? then done.(log := s.log + [Opened(id, r.value.0, r.value.1)]) else done
    case Remove(id, deleteFails, values, stateOk) =>
      if id !in s.world.pending || deleteFails then s
      else s.(world := Removed(s.world, id, values, stateOk))
    case Restart => s.(world := Restarted(s.world), readers := map[])
  }

  ghost function Run(hash: Hash, c: Cipher, actions: seq<Action>): System {
    if actions == [] then INITIAL
    else Step(hash, c, Run(hash, c, actions[..|actions| - 1]), actions[|actions| - 1])
  }

  // ----- The invariant -----

  ghost predicate CommittedOnce(log: seq<Event>) {
    forall i, j | 0 <= i < j < |log| && log[i].Staged? && log[j].Staged? :: log[i].id != log[j].id
  }

  /** Every opened transfer returned the exact plaintext of an earlier committed stage, with its length and digest. */
  ghost predicate OpenedOnlyCommitted(hash: Hash, log: seq<Event>) {
    forall j | 0 <= j < |log| && log[j].Opened? :: OpenedAt(hash, log, j)
  }

  ghost predicate OpenedAt(hash: Hash, log: seq<Event>, j: nat)
    requires j < |log| && log[j].Opened?
  {
    var e := log[j];
    && Staged(e.id, e.bytes) in log[..j]
    && e.summary.transferId == e.id && e.summary.byteLength == |e.bytes| && e.summary.digest == hash(e.bytes)
  }

  ghost predicate ValueOk(hash: Hash, s: System, v: Pending) {
    && v.transferId in s.begun && v.transferId != "" && v.secretHash != []
    && v.vaultId == s.begun[v.transferId].vaultId && v.secretHash == hash(s.begun[v.transferId].secret)
    && if v.staged then CommittedAs(hash, s.log, v) else forall p :: Staged(v.transferId, p) !in s.log
  }

  /** The staged operation describes a committed plaintext. */
  ghost predicate CommittedAs(hash: Hash, log: seq<Event>, v: Pending) {
    exists p :: Staged(v.transferId, p) in log && v.digest == hash(p) && v.byteLength == |p|
  }

  ghost predicate ReaderOk(hash: Hash, s: System, r: Reader) {
    r.value.staged && r.value.transferId == r.id && ValueOk(hash, s, r.value)
  }

  /** What the log says is true of the run, and of the artifacts that are there. */
  ghost predicate LogOk(hash: Hash, s: System) {
    && CommittedOnce(s.log) && OpenedOnlyCommitted(hash, s.log)
    && (forall e | e in s.log :: e.id in s.begun && SecretOk(hash, s, e))
    && (forall e | e in s.log && e.Staged? && ArtifactId(e.id) in s.world.artifacts ::
          s.world.artifacts[ArtifactId(e.id)] == e.plaintext)
  }

  /** Every operation in memory, on disk or in a reader's hand is justified by the log. */
  ghost predicate HeldOk(hash: Hash, s: System) {
    && (forall k | k in s.world.pending :: s.world.pending[k].transferId == k && ValueOk(hash, s, s.world.pending[k]))
    && (s.world.persisted.Some? ==> forall v | v in s.world.persisted.value :: ValueOk(hash, s, v))
    && (forall r | r in s.readers :: ReaderOk(hash, s, s.readers[r]))
  }

  ghost predicate Inv(hash: Hash, s: System) {
    LogOk(hash, s) && HeldOk(hash, s)
  }

  /** A committed stage presented the secret generated for it; an opened transfer names the vault it began for. */
  ghost predicate SecretOk(hash: Hash, s: System, e: Event)
    requires e.id in s.begun
  {
    && (e.Staged? ==> e.id in s.presented && hash(s.presented[e.id]) == hash(s.begun[e.id].secret))
    && (e.Opened? ==> e.summary.vaultId == s.begun[e.id].vaultId)
  }

  lemma {:induction false} LoadOk(hash: Hash, s: System, values: seq<Pending>)
    requires forall v | v in values :: ValueOk(hash, s, v)
    ensures forall k | k in Load(values) ::
      Load(values)[k].staged && Load(values)[k].transferId == k && ValueOk(hash, s, Load(values)[k])
  {
    if values != [] {
      LoadOk(hash, s, values[..|values| - 1]);
      assert values[|values| - 1] in values;
    }
  }

  lemma RestartInv(hash: Hash, s: System)
    requires Inv(hash, s)
    ensures Inv(hash, s.(world := Restarted(s.world), readers := map[]))
  {
    var t := s.(world := Restarted(s.world), readers := map[]);
    if s.world.persisted.Some? {
      LoadOk(hash, s, s.world.persisted.value);
      forall k | k in t.world.pending ensures ValueOk(hash, t, t.world.pending[k]) {
        assert ValueOk(hash, s, t.world.pending[k]);
      }
      forall v | v in s.world.persisted.value ensures ValueOk(hash, t, v) { assert ValueOk(hash, s, v); }
    }
  }

  lemma ListedOk(hash: Hash, s: System, values: seq<Pending>, m: map<string, Pending>)
    requires Lists(values, m) && forall k | k in m :: ValueOk(hash, s, m[k])
    ensures forall v | v in values :: ValueOk(hash, s, v)
  {}

  lemma BeginInv(hash: Hash, c: Cipher, s: System, a: Action)
    requires Digests(hash) && Inv(hash, s) && a.Begin? && Enabled(hash, c, s, a)
    ensures Inv(hash, Step(hash, c, s, a))
  {
    var t := Step(hash, c, s, a);
    var value := FreshPending(hash, a.id, a.vaultId, a.generated);
    var m := s.world.pending[a.id := value];
    assert forall p :: Staged(a.id, p) !in s.log;
    forall k | k in m ensures ValueOk(hash, t, m[k]) {
      if k != a.id { assert ValueOk(hash, s, s.world.pending[k]); }
    }
    ListedOk(hash, t, a.values, m);
    if s.world.persisted.Some? {
      forall v | v in s.world.persisted.value ensures ValueOk(hash, t, v) { assert ValueOk(hash, s, v); }
    }
    forall r | r in s.readers ensures ReaderOk(hash, t, s.readers[r]) { assert ReaderOk(hash, s, s.readers[r]); }
  }

  /** Writing the artifact of an uncommitted transfer disturbs no committed one. */
  lemma WrittenInv(hash: Hash, s: System, id: string, plaintext: Bytes)
    requires Inv(hash, s) && forall p :: Staged(id, p) !in s.log
    ensures Inv(hash, s.(world := Written(s.world, id, plaintext)))
  {
    var t := s.(world := Written(s.world, id, plaintext));
    ValuesOkSame(hash, s, t);
    forall e | e in s.log && e.Staged? && ArtifactId(e.id) in t.world.artifacts
      ensures t.world.artifacts[ArtifactId(e.id)] == e.plaintext
    {
      if ArtifactId(e.id) == ArtifactId(id) { ArtifactIdInjective(e.id, id); }
    }
  }

  lemma ValuesOkSame(hash: Hash, s: System, t: System)
    requires s.log == t.log && s.begun == t.begun
    ensures forall v :: ValueOk(hash, s, v) <==> ValueOk(hash, t, v)
  {}

  /** After a commit of a transfer that had none, every other value is as good as before. */
  lemma CommitExtends(hash: Hash, s: System, t: System, id: string, p: Bytes, v: Pending)
    requires t.log == s.log + [Staged(id, p)] && t.begun == s.begun
    requires ValueOk(hash, s, v) && v.transferId != id
    ensures ValueOk(hash, t, v)
  {
    if v.staged {
      var q :| Staged(v.transferId, q) in s.log && v.digest == hash(q) && v.byteLength == |q|;
      assert Staged(v.transferId, q) in t.log;
    }
  }

  lemma AppendOpened(hash: Hash, log: seq<Event>, e: Event)
    requires OpenedOnlyCommitted(hash, log)
    requires e.Opened? ==> OpenedAt(hash, log + [e], |log|)
    ensures OpenedOnlyCommitted(hash, log + [e])
  {
    var longer := log + [e];
    forall j | 0 <= j < |longer| && longer[j].Opened? ensures OpenedAt(hash, longer, j) {
      if j < |log| {
        assert OpenedAt(hash, log, j);
        assert longer[..j] == log[..j];
      }
    }
  }

  lemma CommitInv(hash: Hash, s: System, id: string, p: Bytes, secret: Bytes, values: seq<Pending>)
    requires Inv(hash, s) && id in s.world.pending && !s.world.pending[id].staged
    requires hash(secret) == s.world.pending[id].secretHash
    requires ArtifactId(id) in s.world.artifacts && s.world.artifacts[ArtifactId(id)] == p
    requires Lists(values, s.world.pending[id := StagedValue(hash, s.world.pending[id], p)])
    ensures Inv(hash, s.(world := Committed(s.world, id, StagedValue(hash, s.world.pending[id], p), values),
                         presented := s.presented[id := secret], log := s.log + [Staged(id, p)]))
  {
    var staged := StagedValue(hash, s.world.pending[id], p);
    var t := s.(world := Committed(s.world, id, staged, values),
                presented := s.presented[id := secret], log := s.log + [Staged(id, p)]);
    assert ValueOk(hash, s, s.world.pending[id]);
    assert forall q :: Staged(id, q) !in s.log;
    assert t.log[|s.log|] == Staged(id, p);
    assert ValueOk(hash, t, staged) by { assert Staged(id, p) in t.log; }
    var m := s.world.pending[id := staged];
    forall k | k in m ensures ValueOk(hash, t, m[k]) {
      if k != id {
        assert ValueOk(hash, s, s.world.pending[k]);
        CommitExtends(hash, s, t, id, p, m[k]);
      }
    }
    ListedOk(hash, t, values, m);
    forall r | r in s.readers ensures ReaderOk(hash, t, s.readers[r]) {
      assert ReaderOk(hash, s, s.readers[r]);
      CommitExtends(hash, s, t, id, p, s.readers[r].value);
    }
    AppendOpened(hash, s.log, Staged(id, p));
    CommitLogOk(s, t, id, p);
    CommitSecretOk(hash, s, t, id, p, secret);
  }

  /** The secrets of the other commits stand, and this one presented its own. */
  lemma CommitSecretOk(hash: Hash, s: System, t: System, id: string, p: Bytes, secret: Bytes)
    requires forall e | e in s.log :: e.id in s.begun && SecretOk(hash, s, e)
    requires (forall q :: Staged(id, q) !in s.log) && t.log == s.log + [Staged(id, p)]
    requires t.begun == s.begun && t.presented == s.presented[id := secret]
    requires id in s.begun && hash(secret) == hash(s.begun[id].secret)
    ensures forall e | e in t.log :: e.id in t.begun && SecretOk(hash, t, e)
  {
    forall e | e in t.log ensures e.id in t.begun && SecretOk(hash, t, e) {
      if e in s.log {
        assert SecretOk(hash, s, e);
        if e.Staged? { assert e == Staged(e.id, e.plaintext); }
      } else {
        assert e == Staged(id, p);
      }
    }
  }

  lemma CommitLogOk(s: System, t: System, id: string, p: Bytes)
    requires CommittedOnce(s.log) && (forall q :: Staged(id, q) !in s.log) && t.log == s.log + [Staged(id, p)]
    requires ArtifactId(id) in s.world.artifacts && s.world.artifacts[ArtifactId(id)] == p
    requires t.world.artifacts == s.world.artifacts
    requires forall e | e in s.log && e.Staged? && ArtifactId(e.id) in s.world.artifacts ::
      s.world.artifacts[ArtifactId(e.id)] == e.plaintext
    ensures CommittedOnce(t.log)
    ensures forall e | e in t.log && e.Staged? && ArtifactId(e.id) in t.world.artifacts ::
      t.world.artifacts[ArtifactId(e.id)] == e.plaintext
  {
    forall i, j | 0 <= i < j < |t.log| && t.log[i].Staged? && t.log[j].Staged?
      ensures t.log[i].id != t.log[j].id
    {
      if j == |s.log| { assert s.log[i] == Staged(s.log[i].id, s.log[i].plaintext) && s.log[i] in s.log; }
    }
  }

  lemma StageInv(hash: Hash, c: Cipher, s: System, a: Action)
    requires Inv(hash, s) && a.Stage? && Enabled(hash, c, s, a)
    ensures Inv(hash, Step(hash, c, s, a))
  {
    var r := StageCheck(hash, c, s.world, a.id, a.secret, a.envelope);
    if r.Ok? && a.artifactOk {
      var value := s.world.pending[a.id];
      assert ValueOk(hash, s, value) && value.transferId == a.id;
      WrittenInv(hash, s, a.id, r.value);
      var w := s.(world := Written(s.world, a.id, r.value));
      if a.stateOk {
        CommitInv(hash, w, a.id, r.value, a.secret.value, a.values);
      } else {
        Carries(hash, w, Step(hash, c, s, a));
      }
    }
  }

  lemma ReadReturnsCommitted(hash: Hash, s: System, v: Pending)
    requires Inv(hash, s) && v.staged && ValueOk(hash, s, v)
    ensures var r := ReadStaged(hash, s.world.artifacts, v.transferId, v);
      && r != Err(IntegrityFailed)
      && (r.Ok? ==> Staged(v.transferId, r.value.0) in s.log && r.value.1 == SummaryOf(v)
                    && v.digest == hash(r.value.0) && v.byteLength == |r.value.0|)
  {
    var p :| Staged(v.transferId, p) in s.log && v.digest == hash(p) && v.byteLength == |p|;
  }

  /** Logging an opened transfer changes what is known of no value. */
  lemma OpenedExtends(hash: Hash, s: System, t: System, e: Event, v: Pending)
    requires t.log == s.log + [e] && e.Opened? && t.begun == s.begun && ValueOk(hash, s, v)
    ensures ValueOk(hash, t, v)
  {
    if v.staged {
      var q :| Staged(v.transferId, q) in s.log && v.digest == hash(q) && v.byteLength == |q|;
      assert Staged(v.transferId, q) in t.log;
    }
  }

  lemma OpenedSecretOk(hash: Hash, s: System, t: System, e: Event)
    requires forall x | x in s.log :: x.id in s.begun && SecretOk(hash, s, x)
    requires e.Opened? && e.id in s.begun && e.summary.vaultId == s.begun[e.id].vaultId
    requires t.log == s.log + [e] && t.begun == s.begun && t.presented == s.presented
    ensures forall x | x in t.log :: x.id in t.begun && SecretOk(hash, t, x)
  {
    forall x | x in t.log ensures x.id in t.begun && SecretOk(hash, t, x) {
      if x in s.log { assert SecretOk(hash, s, x); }
    }
  }

  lemma OpenedHeld(hash: Hash, s: System, t: System, e: Event)
    requires HeldOk(hash, s) && e.Opened? && t.log == s.log + [e] && t.begun == s.begun && t.world == s.world
    requires forall r | r in t.readers :: r in s.readers && t.readers[r] == s.readers[r]
    ensures HeldOk(hash, t)
  {
    forall k | k in t.world.pending ensures ValueOk(hash, t, t.world.pending[k]) {
      OpenedExtends(hash, s, t, e, s.world.pending[k]);
    }
    if t.world.persisted.Some? {
      forall v | v in t.world.persisted.value ensures ValueOk(hash, t, v) { OpenedExtends(hash, s, t, e, v); }
    }
    forall r | r in t.readers ensures ReaderOk(hash, t, t.readers[r]) {
      assert ReaderOk(hash, s, s.readers[r]);
      OpenedExtends(hash, s, t, e, s.readers[r].value);
    }
  }

  lemma OpenedLogOk(hash: Hash, s: System, t: System, e: Event)
    requires LogOk(hash, s) && e.Opened? && e.id in s.begun && OpenedAt(hash, s.log + [e], |s.log|)
    requires e.summary.vaultId == s.begun[e.id].vaultId
    requires t.log == s.log + [e] && t.begun == s.begun && t.presented == s.presented && t.world == s.world
    ensures LogOk(hash, t)
  {
    AppendOpened(hash, s.log, e);
    OpenedSecretOk(hash, s, t, e);
    OpenedCommitsNothing(s.log, e);
  }

  lemma OpenedCommitsNothing(log: seq<Event>, e: Event)
    requires CommittedOnce(log) && e.Opened?
    ensures CommittedOnce(log + [e]) && forall x | x in log + [e] && x.Staged? :: x in log
  {
    var longer := log + [e];
    forall i, j | 0 <= i < j < |longer| && longer[i].Staged? && longer[j].Staged? ensures longer[i].id != longer[j].id {
      assert longer[i] == log[i] && longer[j] == log[j];
    }
  }

  /** With the same log, and nothing held that was not justified before, the invariant stands. */
  lemma Carries(hash: Hash, s: System, t: System)
    requires Inv(hash, s) && t.log == s.log && t.begun == s.begun && t.presented == s.presented
    requires forall k | k in t.world.artifacts :: k in s.world.artifacts && t.world.artifacts[k] == s.world.artifacts[k]
    requires forall k | k in t.world.pending ::
      t.world.pending[k].transferId == k && ValueOk(hash, s, t.world.pending[k])
    requires t.world.persisted.Some? ==> forall v | v in t.world.persisted.value :: ValueOk(hash, s, v)
    requires forall r | r in t.readers :: ReaderOk(hash, s, t.readers[r])
    ensures Inv(hash, t)
  {
    ValuesOkSame(hash, s, t);
  }

  lemma ReadInv(hash: Hash, c: Cipher, s: System, reader: nat)
    requires Inv(hash, s) && reader in s.readers
    ensures Inv(hash, Step(hash, c, s, Read(reader)))
  {
    var Reader(id, v) := s.readers[reader];
    assert ReaderOk(hash, s, s.readers[reader]);
    var t := Step(hash, c, s, Read(reader));
    var r := ReadStaged(hash, s.world.artifacts, id, v);
    ReadReturnsCommitted(hash, s, v);
    if r.Ok? {
      var e := Opened(id, r.value.0, r.value.1);
      assert t.log[..|s.log|] == s.log;
      OpenedLogOk(hash, s, t, e);
      OpenedHeld(hash, s, t, e);
    } else {
      Carries(hash, s, t);
    }
  }

  lemma RemoveInv(hash: Hash, c: Cipher, s: System, a: Action)
    requires Inv(hash, s) && a.Remove? && Enabled(hash, c, s, a)
    ensures Inv(hash, Step(hash, c, s, a))
  {
    if a.id in s.world.pending && !a.deleteFails {
      ListedOk(hash, s, a.values, s.world.pending - {a.id});
      Carries(hash, s, Step(hash, c, s, a));
    }
  }

  lemma StepInv(hash: Hash, c: Cipher, s: System, a: Action)
    requires Digests(hash) && Inv(hash, s)
    ensures Inv(hash, Step(hash, c, s, a))
  {
    if Enabled(hash, c, s, a) {
      match a
      case Begin(_, _, _, _, _) => BeginInv(hash, c, s, a);
      case Stage(_, _, _, _, _, _, _) => StageInv(hash, c, s, a);
      case StageCrash(id, secret, envelope) =>
        var r := StageCheck(hash, c, s.world, id, secret, envelope);
        if r.Ok? {
          assert ValueOk(hash, s, s.world.pending[id]);
          WrittenInv(hash, s, id, r.value);
          RestartInv(hash, s.(world := Written(s.world, id, r.value)));
        }
      case Lookup(reader, id) => Carries(hash, s, Step(hash, c, s, a));
      case Read(reader) => ReadInv(hash, c, s, reader);
      case Remove(_, _, _, _) => RemoveInv(hash, c, s, a);
      case Restart => RestartInv(hash, s);
    }
  }

  lemma {:induction false} RunInv(hash: Hash, c: Cipher, actions: seq<Action>)
    requires Digests(hash)
    ensures Inv(hash, Run(hash, c, actions))
  {
    if actions != [] {
      RunInv(hash, c, actions[..|actions| - 1]);
      StepInv(hash, c, Run(hash, c, actions[..|actions| - 1]), actions[|actions| - 1]);
    }
  }

  // ----- Main results -----

  /**
   One-use: over every run, a transfer is staged at most once, by a call that presented the secret its `Begin`
   generated, and opening returns only what was staged, for the vault it began for.
   */
  lemma TransferSafety(hash: Hash, c: Cipher, actions: seq<Action>)
    requires Digests(hash)
    ensures var s := Run(hash, c, actions);
      && CommittedOnce(s.log) && OpenedOnlyCommitted(hash, s.log)
      && (forall e | e in s.log && e.Staged? ::
            e.id in s.begun && e.id in s.presented && hash(s.presented[e.id]) == hash(s.begun[e.id].secret))
      && (forall e | e in s.log && e.Opened? :: e.id in s.begun && e.summary.vaultId == s.begun[e.id].vaultId)
  {
    RunInv(hash, c, actions);
    var s := Run(hash, c, actions);
    forall e | e in s.log ensures e.id in s.begun && SecretOk(hash, s, e) {}
  }

  /**
   Which calls stage: exactly those that present a secret with the hash of the generated one, for a pending
   transfer that is not staged, with an envelope that opens under the secret they present.
   */
  lemma StagesIff(hash: Hash, c: Cipher, actions: seq<Action>,
                  id: string, secret: Option<Bytes>, envelope: Bytes, p: Bytes)
    requires Digests(hash)
    ensures var s := Run(hash, c, actions);
      StageCheck(hash, c, s.world, id, secret, envelope) == Ok(p) <==>
        && id in s.world.pending && !s.world.pending[id].staged && id in s.begun
        && secret.Some? && hash(secret.value) == hash(s.begun[id].secret) && Open(c, secret.value, envelope) == Some(p)
  {
    RunInv(hash, c, actions);
    var s := Run(hash, c, actions);
    if id in s.world.pending { assert ValueOk(hash, s, s.world.pending[id]); }
  }

  /** A pending transfer stages with its own secret and a sealed envelope, when both writes succeed. */
  lemma OwnSecretStages(hash: Hash, c: Cipher, actions: seq<Action>, id: string, nonce: Bytes, p: Bytes, a: Action)
    requires Digests(hash) && Lawful(c) && |nonce| == NONCE_LENGTH
    requires var s := Run(hash, c, actions);
      && id in s.world.pending && !s.world.pending[id].staged && id in s.begun
      && a.Stage? && a.id == id && a.secret == Some(s.begun[id].secret)
      && a.envelope == Seal(c, s.begun[id].secret, nonce, p) && a.artifactOk && a.stateOk && Enabled(hash, c, s, a)
    ensures Run(hash, c, actions + [a]).log == Run(hash, c, actions).log + [Staged(id, p)]
  {
    var s := Run(hash, c, actions);
    OpenUndoesSeal(c, s.begun[id].secret, nonce, p);
    StagesIff(hash, c, actions, id, a.secret, a.envelope, p);
    assert (actions + [a])[..|actions|] == actions;
  }

  /** A `Begin` that is written leaves a transfer that can be staged; a restart keeps the staged ones only. */
  lemma BeginPends(hash: Hash, c: Cipher, actions: seq<Action>, a: Action)
    requires a.Begin? && a.stateOk && Enabled(hash, c, Run(hash, c, actions), a)
    ensures var s := Run(hash, c, actions + [a]);
      && a.id in s.world.pending && !s.world.pending[a.id].staged
      && a.id in s.begun && s.begun[a.id] == Start(a.vaultId, a.generated)
    ensures var s := Run(hash, c, actions + [Restart]);
      forall k | k in s.world.pending :: s.world.pending[k].staged
  {
    assert (actions + [a])[..|actions|] == actions && (actions + [Restart])[..|actions|] == actions;
    var s := Run(hash, c, actions);
    if s.world.persisted.Some? { LoadStaged(s.world.persisted.value); }
  }

  /** A failed state write leaves `Begin` and `Stage` undone: the same transfers, staged or not, and the same disk. */
  lemma FailedWriteUndone(hash: Hash, c: Cipher, actions: seq<Action>, a: Action)
    requires Digests(hash) && (a.Begin? || a.Stage?) && !a.stateOk
    ensures var s, t := Run(hash, c, actions), Run(hash, c, actions + [a]);
      && t.world.pending.Keys == s.world.pending.Keys && t.world.persisted == s.world.persisted && t.log == s.log
      && forall k | k in s.world.pending ::
           && t.world.pending[k].staged == s.world.pending[k].staged
           && t.world.pending[k].secretHash == s.world.pending[k].secretHash
  {
    RunInv(hash, c, actions);
    var s := Run(hash, c, actions);
    assert (actions + [a])[..|actions|] == actions;
    forall k | k in s.world.pending ensures k in s.begun { assert ValueOk(hash, s, s.world.pending[k]); }
  }

  /** A wrong secret changes nothing, in memory or in either store. */
  lemma WrongSecretRefused(hash: Hash, c: Cipher, actions: seq<Action>, a: Action)
    requires Digests(hash) && a.Stage? && a.secret.Some?
    requires var s := Run(hash, c, actions); a.id in s.begun && hash(a.secret.value) != hash(s.begun[a.id].secret)
    ensures Run(hash, c, actions + [a]) == Run(hash, c, actions)
  {
    var s := Run(hash, c, actions);
    var r := StageCheck(hash, c, s.world, a.id, a.secret, a.envelope);
    if r.Ok? { StagesIff(hash, c, actions, a.id, a.secret, a.envelope, r.value); }
    assert (actions + [a])[..|actions|] == actions;
  }

  /**
   Whatever has happened to the artifact files, `OpenStaged` returns bytes with the digest and the length of
   the committed plaintext, or nothing.
   */
  lemma CorruptionDetected(hash: Hash, c: Cipher, actions: seq<Action>, id: string, artifacts: map<string, Bytes>)
    requires Digests(hash)
    requires var w := Run(hash, c, actions).world; id in w.pending && w.pending[id].staged
    requires ReadStaged(hash, artifacts, id, Run(hash, c, actions).world.pending[id]).Ok?
    ensures var bytes := ReadStaged(hash, artifacts, id, Run(hash, c, actions).world.pending[id]).value.0;
      exists p :: Staged(id, p) in Run(hash, c, actions).log && hash(bytes) == hash(p) && |bytes| == |p|
  {
    RunInv(hash, c, actions);
    var s := Run(hash, c, actions);
    assert ValueOk(hash, s, s.world.pending[id]);
  }

  /**
   A staged transfer is either missing its artifact or opens to the committed plaintext: the integrity check
   never fails.
   */
  lemma StagedOpensExactly(hash: Hash, c: Cipher, actions: seq<Action>, id: string)
    requires Digests(hash)
    requires var w := Run(hash, c, actions).world; id in w.pending && w.pending[id].staged
    ensures var s := Run(hash, c, actions);
      exists p :: Staged(id, p) in s.log &&
        ReadStaged(hash, s.world.artifacts, id, s.world.pending[id]) ==
          if ArtifactId(id) in s.world.artifacts then Ok((p, SummaryOf(s.world.pending[id]))) else Err(ArtifactMissing)
  {
    RunInv(hash, c, actions);
    var s := Run(hash, c, actions);
    var v := s.world.pending[id];
    assert ValueOk(hash, s, v);
    var p :| Staged(v.transferId, p) in s.log && v.digest == hash(p) && v.byteLength == |p|;
  }

  /** What is on disk always loads: no run persists an operation that a restart would refuse. */
  lemma RestartLoads(hash: Hash, c: Cipher, actions: seq<Action>)
    requires Digests(hash)
    ensures var w := Run(hash, c, actions).world; w.persisted.Some? ==> Loadable(w.persisted.value)
  {
    RunInv(hash, c, actions);
    var s := Run(hash, c, actions);
    if s.world.persisted.Some? {
      forall v | v in s.world.persisted.value ensures v.transferId != "" && v.secretHash != [] {
        assert ValueOk(hash, s, v);
      }
    }
  }

  // ----- What becomes of a committed transfer -----

  /**
   Kept: staged, on disk and with its artifact. Lingering: removed, but the write failed and the disk
   still lists it. Orphaned: back from the disk, without its artifact. Gone: removed for good.
   */
  datatype Fate = Kept | Lingering | Orphaned | Gone

  /** The action takes the transfer out of memory and deletes its artifact. */
  predicate Removes(s: System, a: Action, id: string) {
    a.Remove? && a.id == id && id in s.world.pending && !a.deleteFails
  }

  /** The action replaces the list on disk. */
  predicate Writes(hash: Hash, c: Cipher, s: System, a: Action) {
    match a
    case Begin(_, _, _, _, stateOk) => stateOk
    case Stage(id, secret, envelope, artifactOk, _, stateOk, _) =>
      StageCheck(hash, c, s.world, id, secret, envelope).Ok? && artifactOk && stateOk
    case Remove(id, deleteFails, _, stateOk) => id in s.world.pending && !deleteFails && stateOk
    case _ => false
  }

  predicate Restarts(hash: Hash, c: Cipher, s: System, a: Action) {
    a.Restart? || (a.StageCrash? && StageCheck(hash, c, s.world, a.id, a.secret, a.envelope).Ok?)
  }

  ghost function NextFate(hash: Hash, c: Cipher, s: System, a: Action, id: string, f: Fate): Fate {
    if !Enabled(hash, c, s, a) then f
    else if Removes(s, a, id) then if a.stateOk then Gone else Lingering
    else if f.Lingering? && Restarts(hash, c, s, a) then Orphaned
    else if f.Lingering? && Writes(hash, c, s, a) then Gone
    else f
  }

  /** The fate of a transfer that was committed by the end of `start`, after `more`. */
  ghost function FateAfter(hash: Hash, c: Cipher, start: seq<Action>, more: seq<Action>, id: string): Fate {
    if more == [] then Kept
    else
      var before := more[..|more| - 1];
      NextFate(hash, c, Run(hash, c, start + before), more[|more| - 1], id, FateAfter(hash, c, start, before, id))
  }

  ghost predicate StagedIn(values: seq<Pending>, id: string) {
    exists v | v in values :: v.transferId == id && v.staged
  }

  ghost predicate FateOk(s: System, id: string, p: Bytes, f: Fate) {
    && Staged(id, p) in s.log
    && (id in s.world.pending <==> f.Kept? || f.Orphaned?) && (id in s.world.pending ==> s.world.pending[id].staged)
    && s.world.persisted.Some? && (StagedIn(s.world.persisted.value, id) <==> !f.Gone?)
    && (ArtifactId(id) in s.world.artifacts <==> f.Kept?)
  }

  lemma {:induction false} LoadHolds(values: seq<Pending>, id: string)
    ensures id in Load(values) <==> StagedIn(values, id)
  {
    if values != [] {
      var init, last := values[..|values| - 1], values[|values| - 1];
      LoadHolds(init, id);
      assert values == init + [last];
      if StagedIn(init, id) {
        var v :| v in init && v.transferId == id && v.staged;
        assert v in values;
      }
      if last.transferId == id && last.staged { assert last in values; }
    }
  }

  /** The last staged operation of this transfer is at `i`. */
  predicate LastStaged(values: seq<Pending>, id: string, i: nat) {
    && i < |values| && values[i].transferId == id && values[i].staged
    && forall j | i < j < |values| :: !(values[j].transferId == id && values[j].staged)
  }

  /** A transfer is loaded exactly when the list holds it staged, and as the last entry that does. */
  lemma {:induction false} LoadsLast(values: seq<Pending>, id: string, v: Pending)
    ensures id in Load(values) && Load(values)[id] == v <==>
      exists i: nat :: LastStaged(values, id, i) && values[i] == v
  {
    if values != [] {
      var n := |values| - 1;
      var init, last := values[..n], values[n];
      LoadsLast(init, id, v);
      if last.transferId == id && last.staged {
        assert LastStaged(values, id, n);
        assert forall i: nat :: LastStaged(values, id, i) ==> i == n;
      } else {
        assert forall i: nat | i < n :: init[i] == values[i];
        assert forall i: nat :: LastStaged(init, id, i) <==> LastStaged(values, id, i);
      }
    }
  }

  lemma ListHolds(values: seq<Pending>, m: map<string, Pending>, id: string)
    requires Lists(values, m) && forall k | k in m :: m[k].transferId == k
    ensures StagedIn(values, id) <==> id in m && m[id].staged
  {
    if id in m { assert m[id] in values; }
  }

  lemma {:induction false} LoadStaged(values: seq<Pending>)
    ensures forall k | k in Load(values) :: Load(values)[k].staged && Load(values)[k].transferId == k
  {
    if values != [] { LoadStaged(values[..|values| - 1]); }
  }

  /** The part of the invariant that matters here. */
  ghost predicate KeysOk(s: System) {
    && (forall k | k in s.world.pending :: s.world.pending[k].transferId == k)
    && (forall e | e in s.log :: e.id in s.begun)
  }

  lemma FateAfterRestart(s: System, id: string, p: Bytes, f: Fate)
    requires KeysOk(s) && FateOk(s, id, p, f)
    ensures FateOk(s.(world := Restarted(s.world), readers := map[]), id, p, if f.Lingering? then Orphaned else f)
  {
    LoadHolds(s.world.persisted.value, id);
    LoadStaged(s.world.persisted.value);
  }

  /** Memory and artifact of this transfer are as before; the list on disk is as before, or a listing of memory. */
  ghost predicate Elsewhere(s: System, t: System, id: string, written: bool) {
    && (forall e | e in s.log :: e in t.log)
    && (id in t.world.pending <==> id in s.world.pending)
    && (id in s.world.pending ==> t.world.pending[id] == s.world.pending[id])
    && (ArtifactId(id) in t.world.artifacts <==> ArtifactId(id) in s.world.artifacts)
    && if !written then t.world.persisted == s.world.persisted
       else
         && t.world.persisted.Some?
         && (StagedIn(t.world.persisted.value, id) <==> id in t.world.pending && t.world.pending[id].staged)
  }

  /** Such a step ends a lingering transfer when it writes the list, and changes nothing else. */
  lemma FateElsewhere(s: System, t: System, id: string, p: Bytes, f: Fate, written: bool)
    requires FateOk(s, id, p, f) && Elsewhere(s, t, id, written)
    ensures FateOk(t, id, p, if f.Lingering? && written then Gone else f)
  {}

  lemma FateAfterBegin(hash: Hash, c: Cipher, s: System, a: Action, id: string, p: Bytes, f: Fate)
    requires KeysOk(s) && FateOk(s, id, p, f) && a.Begin? && Enabled(hash, c, s, a)
    ensures FateOk(Step(hash, c, s, a), id, p, NextFate(hash, c, s, a, id, f))
  {
    assert Staged(id, p).id in s.begun && a.id != id;
    ListHolds(a.values, s.world.pending[a.id := FreshPending(hash, a.id, a.vaultId, a.generated)], id);
    FateElsewhere(s, Step(hash, c, s, a), id, p, f, a.stateOk);
  }

  /** A stage of another transfer, since this one is staged or not pending. */
  lemma FateAfterStage(hash: Hash, c: Cipher, s: System, a: Action, id: string, p: Bytes, f: Fate)
    requires KeysOk(s) && FateOk(s, id, p, f) && a.Stage? && Enabled(hash, c, s, a)
    ensures FateOk(Step(hash, c, s, a), id, p, NextFate(hash, c, s, a, id, f))
  {
    var r := StageCheck(hash, c, s.world, a.id, a.secret, a.envelope);
    if r.Ok? && a.artifactOk {
      assert a.id != id;
      ListHolds(a.values, s.world.pending[a.id := StagedValue(hash, s.world.pending[a.id], r.value)], id);
      var t := StageStep(hash, c, s, a);
      StageElsewhere(s, t, a, id, StagedValue(hash, s.world.pending[a.id], r.value), r.value);
      FateElsewhere(s, t, id, p, f, a.stateOk);
    }
  }

  lemma StageElsewhere(s: System, t: System, a: Action, id: string, staged: Pending, plaintext: Bytes)
    requires a.Stage? && a.id != id && a.id in s.world.pending
    requires StagedIn(a.values, id) <==> id in s.world.pending && s.world.pending[id].staged
    requires var written := Written(s.world, a.id, plaintext);
      if a.stateOk then t == s.(world := Committed(written, a.id, staged, a.values), presented := t.presented,
                                log := s.log + [Staged(a.id, plaintext)])
      else t == s.(world := RolledBack(written, a.id, staged, a.deleteOk))
    ensures Elsewhere(s, t, id, a.stateOk)
  {
    OtherArtifact(a.id, id);
  }

  lemma OtherArtifact(a: string, b: string)
    requires a != b
    ensures ArtifactId(a) != ArtifactId(b)
  {
    if ArtifactId(a) == ArtifactId(b) { ArtifactIdInjective(a, b); }
  }

  lemma FateAfterCrash(hash: Hash, c: Cipher, s: System, a: Action, id: string, p: Bytes, f: Fate)
    requires KeysOk(s) && FateOk(s, id, p, f) && a.StageCrash?
    ensures FateOk(Step(hash, c, s, a), id, p, NextFate(hash, c, s, a, id, f))
  {
    var r := StageCheck(hash, c, s.world, a.id, a.secret, a.envelope);
    if r.Ok? {
      OtherArtifact(a.id, id);
      var written := s.(world := Written(s.world, a.id, r.value));
      FateElsewhere(s, written, id, p, f, false);
      FateAfterRestart(written, id, p, f);
    }
  }

  lemma FateAfterRemove(hash: Hash, c: Cipher, s: System, a: Action, id: string, p: Bytes, f: Fate)
    requires KeysOk(s) && FateOk(s, id, p, f) && a.Remove? && Enabled(hash, c, s, a)
    ensures FateOk(Step(hash, c, s, a), id, p, NextFate(hash, c, s, a, id, f))
  {
    if a.id in s.world.pending && !a.deleteFails {
      ListHolds(a.values, s.world.pending - {a.id}, id);
      if a.id != id {
        OtherArtifact(a.id, id);
        FateElsewhere(s, Step(hash, c, s, a), id, p, f, a.stateOk);
      }
    }
  }

  lemma FateAfterRead(hash: Hash, c: Cipher, s: System, a: Action, id: string, p: Bytes, f: Fate)
    requires FateOk(s, id, p, f) && (a.Lookup? || a.Read?) && Enabled(hash, c, s, a)
    ensures FateOk(Step(hash, c, s, a), id, p, NextFate(hash, c, s, a, id, f))
  {
    FateElsewhere(s, Step(hash, c, s, a), id, p, f, false);
  }

  lemma FateStep(hash: Hash, c: Cipher, s: System, a: Action, id: string, p: Bytes, f: Fate)
    requires KeysOk(s) && FateOk(s, id, p, f)
    ensures FateOk(Step(hash, c, s, a), id, p, NextFate(hash, c, s, a, id, f))
  {
    if Enabled(hash, c, s, a) {
      match a
      case Begin(_, _, _, _, _) => FateAfterBegin(hash, c, s, a, id, p, f);
      case Stage(_, _, _, _, _, _, _) => FateAfterStage(hash, c, s, a, id, p, f);
      case StageCrash(_, _, _) => FateAfterCrash(hash, c, s, a, id, p, f);
      case Lookup(_, _) => FateAfterRead(hash, c, s, a, id, p, f);
      case Read(_) => FateAfterRead(hash, c, s, a, id, p, f);
      case Remove(_, _, _, _) => FateAfterRemove(hash, c, s, a, id, p, f);
      case Restart => FateAfterRestart(s, id, p, f);
    }
  }

  /** The action is a stage of `id` that commits `p`. */
  ghost predicate Commits(hash: Hash, c: Cipher, s: System, a: Action, id: string, p: Bytes) {
    && a.Stage? && a.id == id && Enabled(hash, c, s, a) && a.artifactOk && a.stateOk
    && StageCheck(hash, c, s.world, a.id, a.secret, a.envelope) == Ok(p)
  }

  lemma CommitKeeps(hash: Hash, c: Cipher, s: System, a: Action, id: string, p: Bytes)
    requires Inv(hash, s) && Commits(hash, c, s, a, id, p)
    ensures FateOk(Step(hash, c, s, a), id, p, Kept)
  {
    var staged := StagedValue(hash, s.world.pending[id], p);
    ListHolds(a.values, s.world.pending[id := staged], id);
    var t := Step(hash, c, s, a);
    assert t.log[|s.log|] == Staged(id, p);
  }

  lemma {:induction false} FateRun(hash: Hash, c: Cipher, start: seq<Action>, more: seq<Action>, id: string, p: Bytes)
    requires Digests(hash) && FateOk(Run(hash, c, start), id, p, Kept)
    ensures FateOk(Run(hash, c, start + more), id, p, FateAfter(hash, c, start, more, id))
    decreases |more|
  {
    if more == [] {
      assert start + more == start;
    } else {
      var before, last := more[..|more| - 1], more[|more| - 1];
      FateRun(hash, c, start, before, id, p);
      RunInv(hash, c, start + before);
      FateStep(hash, c, Run(hash, c, start + before), last, id, p, FateAfter(hash, c, start, before, id));
      assert (start + more)[..|start + more| - 1] == start + before && (start + more)[|start + more| - 1] == last;
    }
  }

  /**
   What `OpenStaged` finds after a commit and any further run: the exact plaintext while the transfer is
   kept; a staged entry without its artifact exactly when a removal whose write failed was followed by a
   restart before the list was written again; and otherwise no staged entry.
   */
  lemma TransferFate(hash: Hash, c: Cipher, start: seq<Action>, a: Action, more: seq<Action>, id: string, p: Bytes)
    requires Digests(hash) && Commits(hash, c, Run(hash, c, start), a, id, p)
    ensures var s := Run(hash, c, start + [a] + more);
      match FateAfter(hash, c, start + [a], more, id)
      case Kept => id in s.world.pending && s.world.pending[id].staged
        && ReadStaged(hash, s.world.artifacts, id, s.world.pending[id]) == Ok((p, SummaryOf(s.world.pending[id])))
      case Orphaned => id in s.world.pending && s.world.pending[id].staged
        && ReadStaged(hash, s.world.artifacts, id, s.world.pending[id]) == Err(ArtifactMissing)
      case _ => id !in s.world.pending
  {
    RunInv(hash, c, start);
    CommitKeeps(hash, c, Run(hash, c, start), a, id, p);
    assert (start + [a])[..|start|] == start;
    FateRun(hash, c, start + [a], more, id, p);
    if FateAfter(hash, c, start + [a], more, id).Kept? { KeptOpens(hash, c, start + [a] + more, id, p); }
  }

  lemma KeptOpens(hash: Hash, c: Cipher, actions: seq<Action>, id: string, p: Bytes)
    requires Digests(hash) && FateOk(Run(hash, c, actions), id, p, Kept)
    ensures var w := Run(hash, c, actions).world;
      id in w.pending && ReadStaged(hash, w.artifacts, id, w.pending[id]) == Ok((p, SummaryOf(w.pending[id])))
  {
    RunInv(hash, c, actions);
    var s := Run(hash, c, actions);
    assert ValueOk(hash, s, s.world.pending[id]);
    var q :| Staged(id, q) in s.log && s.world.pending[id].digest == hash(q) && s.world.pending[id].byteLength == |q|;
    OneCommit(s.log, id, p, q);
  }

  lemma OneCommit(log: seq<Event>, id: string, p: Bytes, q: Bytes)
    requires CommittedOnce(log) && Staged(id, p) in log && Staged(id, q) in log
    ensures p == q
  {
    var i :| 0 <= i < |log| && log[i] == Staged(id, p);
    var j :| 0 <= j < |log| && log[j] == Staged(id, q);
    assert i == j;
  }

  lemma {:induction false} UnremovedIsKept(hash: Hash, c: Cipher, start: seq<Action>, more: seq<Action>, id: string)
    requires forall x | x in more :: !(x.Remove? && x.id == id)
    ensures FateAfter(hash, c, start, more, id) == Kept
    decreases |more|
  {
    if more != [] {
      assert more[|more| - 1] in more;
      UnremovedIsKept(hash, c, start, more[..|more| - 1], id);
    }
  }

  /** The failing family is inhabited: a removal whose write fails, then a restart. */
  lemma FailedRemoveOrphans(hash: Hash, c: Cipher, start: seq<Action>, values: seq<Pending>, id: string)
    requires id in Run(hash, c, start).world.pending && Lists(values, Run(hash, c, start).world.pending - {id})
    ensures FateAfter(hash, c, start, [Remove(id, false, values, false), Restart], id) == Orphaned
  {
    var more := [Remove(id, false, values, false), Restart];
    assert more[..1] == [more[0]] && more[..1][..0] == [] && start + [] == start;
    assert FateAfter(hash, c, start, more[..1], id) == Lingering;
  }

  /** Durability: without a removal of the transfer, no restart, crash or failed write loses or changes it. */
  lemma Durability(hash: Hash, c: Cipher, start: seq<Action>, a: Action, more: seq<Action>, id: string, p: Bytes)
    requires Digests(hash) && Commits(hash, c, Run(hash, c, start), a, id, p)
    requires forall x | x in more :: !(x.Remove? && x.id == id)
    ensures var w := Run(hash, c, start + [a] + more).world;
      && id in w.pending && w.pending[id].staged
      && ReadStaged(hash, w.artifacts, id, w.pending[id]) == Ok((p, SummaryOf(w.pending[id])))
  {
    UnremovedIsKept(hash, c, start + [a], more, id);
    TransferFate(hash, c, start, a, more, id, p);
  }

  // ----- No artifact is left behind -----

  /** Every artifact belongs to a transfer that is staged, in memory and on disk. */
  ghost predicate StrayFree(s: System) {
    forall id | ArtifactId(id) in s.world.artifacts :: Owned(s, id)
  }

  ghost predicate Owned(s: System, id: string) {
    && id in s.world.pending && s.world.pending[id].staged
    && s.world.persisted.Some? && StagedIn(s.world.persisted.value, id)
  }

  /** The stage does not stop between its two writes, and its rollback can delete. */
  predicate Tidy(a: Action) {
    !a.StageCrash? && (a.Stage? ==> a.deleteOk)
  }

  lemma StrayFreeStage(hash: Hash, c: Cipher, s: System, a: Action, id: string)
    requires KeysOk(s) && StrayFree(s) && a.Stage? && a.deleteOk && Enabled(hash, c, s, a)
    requires ArtifactId(id) in Step(hash, c, s, a).world.artifacts
    ensures Owned(Step(hash, c, s, a), id)
  {
    var r := StageCheck(hash, c, s.world, a.id, a.secret, a.envelope);
    if r.Ok? && a.artifactOk {
      if a.id != id {
        OtherArtifact(a.id, id);
        assert Owned(s, id);
      }
      ListHolds(a.values, s.world.pending[a.id := StagedValue(hash, s.world.pending[a.id], r.value)], id);
    } else {
      assert Owned(s, id);
    }
  }

  lemma StrayFreeStep(hash: Hash, c: Cipher, s: System, a: Action, id: string)
    requires KeysOk(s) && StrayFree(s) && Tidy(a) && (forall k | k in s.world.pending :: k in s.begun)
    requires ArtifactId(id) in Step(hash, c, s, a).world.artifacts
    ensures Owned(Step(hash, c, s, a), id)
  {
    if !Enabled(hash, c, s, a) {
      assert Owned(s, id);
    } else {
      match a
      case Begin(other, vaultId, secret, values, _) =>
        assert Owned(s, id);
        ListHolds(values, s.world.pending[other := FreshPending(hash, other, vaultId, secret)], id);
      case Stage(_, _, _, _, _, _, _) => StrayFreeStage(hash, c, s, a, id);
      case Lookup(_, _) => assert Owned(s, id);
      case Read(_) => assert Owned(s, id);
      case Remove(other, _, values, _) =>
        assert Owned(s, id);
        ListHolds(values, s.world.pending - {other}, id);
      case Restart =>
        assert Owned(s, id);
        LoadHolds(s.world.persisted.value, id);
        LoadStaged(s.world.persisted.value);
    }
  }

  /** Without a crash inside `Stage` or a failing rollback delete, no run leaves an artifact without an owner. */
  lemma {:induction false} NoStrayArtifacts(hash: Hash, c: Cipher, actions: seq<Action>)
    requires Digests(hash) && forall a | a in actions :: Tidy(a)
    ensures StrayFree(Run(hash, c, actions))
  {
    if actions != [] {
      var before, a := actions[..|actions| - 1], actions[|actions| - 1];
      NoStrayArtifacts(hash, c, before);
      RunInv(hash, c, before);
      var s := Run(hash, c, before);
      assert a in actions;
      forall k | k in s.world.pending ensures k in s.begun { assert ValueOk(hash, s, s.world.pending[k]); }
      forall id | ArtifactId(id) in Step(hash, c, s, a).world.artifacts ensures Owned(Step(hash, c, s, a), id) {
        StrayFreeStep(hash, c, s, a, id);
      }
    }
  }

  // ----- The manager and its stores -----

  /** The persisted state: one value, replaced whole; a failing write leaves it unchanged. */
  class StateStore {
    var value: Option<seq<Pending>>

    constructor ()
      ensures value == None
    {
      value := None;
    }

    method Put(values: seq<Pending>, succeeds: bool) returns (ok: bool)
      modifies this
      ensures ok == succeeds
      ensures value == if ok then Some(values) else old(value)
    {
      ok := succeeds;
      if ok {
        value := Some(values);
      }
    }
  }

  /** Artifacts by name; a write replaces one atomically or leaves it alone. */
  class ArtifactStore {
    var files: map<string, Bytes>

    constructor ()
      ensures files == map[]
    {
      files := map[];
    }

    method Put(id: string, bytes: Bytes, succeeds: bool) returns (ok: bool)
      modifies this
      ensures ok == succeeds
      ensures files == if ok then old(files)[id := bytes] else old(files)
    {
      ok := succeeds;
      if ok {
        files := files[id := bytes];
      }
    }

    /** `ok` is false only for an error other than a missing file. */
    method Delete(id: string, succeeds: bool) returns (ok: bool)
      modifies this
      ensures ok == succeeds
      ensures files == if ok then old(files) - {id} else old(files)
    {
      ok := succeeds;
      if ok {
        files := files - {id};
      }
    }
  }

  class Manager {
    const hash: Hash
    const cipher: Cipher
    const state: StateStore
    const artifacts: ArtifactStore
    var pending: map<string, Pending>

    ghost function Value(): World
      reads this, state, artifacts
    {
      World(pending, state.value, artifacts.files)
    }

    constructor (hash: Hash, cipher: Cipher, state: StateStore, artifacts: ArtifactStore, pending: map<string, Pending>)
      ensures this.hash == hash && this.cipher == cipher && this.state == state && this.artifacts == artifacts
      ensures this.pending == pending
    {
      this.hash, this.cipher, this.state, this.artifacts := hash, cipher, state, artifacts;
      this.pending := pending;
    }

    /** Start from what the stores hold: a malformed operation refuses the start, an unsubmitted one is dropped. */
    static method NewManager(hash: Hash, cipher: Cipher, state: StateStore, artifacts: ArtifactStore)
      returns (manager: Option<Manager>)
      ensures manager.None? <==>
        state.value.Some? && exists v | v in state.value.value :: v.transferId == "" || v.secretHash == []
      ensures manager.Some? ==>
        && fresh(manager.value) && manager.value.state == state && manager.value.artifacts == artifacts
        && manager.value.hash == hash && manager.value.cipher == cipher
        && manager.value.Value() == Restarted(World(map[], state.value, artifacts.files))
    {
      var loaded: map<string, Pending> := map[];
      if state.value.Some? {
        var values := state.value.value;
        for index := 0 to |values|
          invariant loaded == Load(values[..index])
          invariant Loadable(values[..index])
        {
          assert values[..index + 1][..index] == values[..index];
          var value := values[index];
          if value.transferId == "" || value.secretHash == [] {
            assert value in values;
            return None;
          }
          if value.staged {
            loaded := loaded[value.transferId := value];
          }
        }
        assert values[..|values|] == values;
      }
      var m := new Manager(hash, cipher, state, artifacts, loaded);
      return Some(m);
    }

    /** The entries of the map as a list, in iteration order. */
    method PendingValues() returns (values: seq<Pending>)
      ensures Lists(values, pending)
    {
      values := [];
      var rest := pending;
      while rest != map[]
        invariant forall k | k in rest :: k in pending && rest[k] == pending[k]
        invariant forall k | k in pending && k !in rest :: pending[k] in values
        invariant forall v | v in values :: exists k | k in pending :: pending[k] == v
        decreases |rest|
      {
        var key :| key in rest;
        values := values + [rest[key]];
        assert rest[key] == pending[key];
        rest := rest - {key};
      }
    }

    method PersistLocked(succeeds: bool) returns (ok: bool, values: seq<Pending>)
      modifies state
      ensures ok == succeeds && Lists(values, pending)
      ensures state.value == if ok then Some(values) else old(state.value)
    {
      values := PendingValues();
      ok := state.Put(values, succeeds);
    }

    /** `id` and `secret` are the generated identifier and key. */
    method Begin(id: string, vaultId: string, secret: Bytes, stateOk: bool) returns (ok: bool, values: seq<Pending>)
      modifies this, state
      ensures ok == (vaultId != "" && stateOk)
      ensures vaultId == "" ==> Value() == old(Value())
      ensures vaultId != "" ==>
        && Lists(values, old(pending)[id := FreshPending(hash, id, vaultId, secret)])
        && Value() == Begun(old(Value()), FreshPending(hash, id, vaultId, secret), values, stateOk)
    {
      values := [];
      if vaultId == "" {
        return false, values;
      }
      var value := FreshPending(hash, id, vaultId, secret);
      pending := pending[id := value];
      ok, values := PersistLocked(stateOk);
      if !ok {
        pending := pending - {id};
      }
    }

    method Stage(id: string, secret: Option<Bytes>, envelope: Bytes, artifactOk: bool, stateOk: bool, deleteOk: bool)
      returns (result: Result<Summary>, values: seq<Pending>)
      modifies this, state, artifacts
      ensures var r := StageCheck(hash, cipher, old(Value()), id, secret, envelope);
        if r.Err? then result == Err(r.failure) && Value() == old(Value())
        else if !artifactOk then result == Err(ArtifactWriteFailed) && Value() == old(Value())
        else
          var staged := StagedValue(hash, old(pending)[id], r.value);
          && Lists(values, old(pending)[id := staged])
          && if stateOk then
               && result == Ok(Summary(id, staged.vaultId, staged.byteLength, staged.digest))
               && Value() == Committed(Written(old(Value()), id, r.value), id, staged, values)
             else
               && result == Err(PersistFailed)
               && Value() == RolledBack(Written(old(Value()), id, r.value), id, staged, deleteOk)
    {
      values := [];
      if secret.None? {
        return Err(InvalidSecret), values;
      }
      var plaintext := Open(cipher, secret.value, envelope);
      if plaintext.None? {
        return Err(AuthenticationFailed), values;
      }
      if id !in pending {
        return Err(NotFound), values;
      }
      var value := pending[id];
      if value.staged {
        return Err(AlreadyStaged), values;
      }
      if hash(secret.value) != value.secretHash {
        return Err(WrongSecret), values;
      }
      var written := artifacts.Put(ArtifactId(id), plaintext.value, artifactOk);
      if !written {
        return Err(ArtifactWriteFailed), values;
      }
      value := value.(staged := true, byteLength := |plaintext.value|, digest := hash(plaintext.value));
      pending := pending[id := value];
      var persisted;
      persisted, values := PersistLocked(stateOk);
      if !persisted {
        var _ := artifacts.Delete(ArtifactId(id), deleteOk);
        pending := pending[id := value.(staged := false)];
        return Err(PersistFailed), values;
      }
      return Ok(Summary(id, value.vaultId, value.byteLength, value.digest)), values;
    }

    /** Lookup and read in one go; the two halves are separate steps of a run. */
    method OpenStaged(id: string) returns (result: Result<(Bytes, Summary)>)
      ensures result ==
        if id in pending && pending[id].staged then ReadStaged(hash, artifacts.files, id, pending[id])
        else Err(NotFound)
    {
      if id !in pending || !pending[id].staged {
        return Err(NotFound);
      }
      var value := pending[id];
      if ArtifactId(id) !in artifacts.files {
        return Err(ArtifactMissing);
      }
      var bytes := artifacts.files[ArtifactId(id)];
      if hash(bytes) != value.digest || |bytes| != value.byteLength {
        return Err(IntegrityFailed);
      }
      return Ok((bytes, SummaryOf(value)));
    }

    method Remove(id: string, deleteFails: bool, stateOk: bool) returns (result: Result<()>, values: seq<Pending>)
      modifies this, state, artifacts
      ensures id !in old(pending) ==> result == Err(NotFound) && Value() == old(Value())
      ensures id in old(pending) && deleteFails ==> result == Err(ArtifactDeleteFailed) && Value() == old(Value())
      ensures id in old(pending) && !deleteFails ==>
        && Lists(values, old(pending) - {id})
        && result == (if stateOk then Ok(()) else Err(PersistFailed))
        && Value() == Removed(old(Value()), id, values, stateOk)
    {
      values := [];
      if id !in pending {
        return Err(NotFound), values;
      }
      var deleted := artifacts.Delete(ArtifactId(id), !deleteFails);
      if !deleted {
        return Err(ArtifactDeleteFailed), values;
      }
      pending := pending - {id};
      var ok;
      ok, values := PersistLocked(stateOk);
      result := if ok then Ok(()) else Err(PersistFailed);
    }
  }
}
