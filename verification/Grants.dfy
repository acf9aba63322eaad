/**
 The local grant manager: pairing, approval, redemption and revocation of API
 grants, each persisted as one snapshot, rolled back in memory when the write
 fails, and reloaded from the snapshot on restart.
 */
module Grants {
  import opened ByteStrings

  /** SHA-256 of a code or token. */
  type TextHash = string -> Bytes

  ghost predicate Digests(hash: TextHash) {
    forall s :: |hash(s)| == 32
  }

  datatype PairingState = PairingState(
    id: string, clientName: string, scopes: seq<string>, code: string,
    codeHash: Bytes, approved: bool, redeemed: bool)

  datatype GrantState = GrantState(
    id: string, clientName: string, scopes: seq<string>, token: string, revoked: bool, tokenHash: Bytes)

  datatype PersistedPairing = PersistedPairing(
    id: string, clientName: string, scopes: seq<string>, codeHash: Bytes, approved: bool, redeemed: bool)

  datatype PersistedGrant = PersistedGrant(
    id: string, clientName: string, scopes: seq<string>, revoked: bool, tokenHash: Bytes)

  datatype Snapshot = Snapshot(pairings: map<string, PersistedPairing>, grants: map<string, PersistedGrant>)

  datatype Failure =
    | ClientNameRequired | InvalidScopes | PairingNotFound | PairingNotApproved | PairingRedeemed
    | InvalidPairingCode | GrantNotFound | GrantRevoked | ScopeDenied | PersistFailed

  datatype Result<+T> = Ok(value: T) | Err(failure: Failure)

  // ----- Text and scopes -----

  const SCOPE_RUNTIME_VAULT := "runtime.vault"

  /** The white space of the Unicode standard, as `strings.TrimSpace` sees it. */
  predicate IsSpace(c: char) {
    || '\t' <= c <= '\r' || c == ' ' || c == '\U{0085}' || c == '\U{00A0}' || c == '\U{1680}'
    || '\U{2000}' <= c <= '\U{200A}' || c == '\U{2028}' || c == '\U{2029}' || c == '\U{202F}'
    || c == '\U{205F}' || c == '\U{3000}'
  }

  function TrimSpace(s: string): string {
    if s == "" then s
    else if IsSpace(s[0]) then TrimSpace(s[1..])
    else if IsSpace(s[|s| - 1]) then TrimSpace(s[..|s| - 1])
    else s
  }

  ghost predicate AllSpace(s: string) {
    forall i | 0 <= i < |s| :: IsSpace(s[i])
  }

  /** Trimming cuts white space off both ends and leaves none there. */
  lemma {:induction false} TrimSpaceTrims(s: string) returns (before: string, after: string)
    ensures s == before + TrimSpace(s) + after && AllSpace(before) && AllSpace(after)
    ensures var r := TrimSpace(s); r == "" || (!IsSpace(r[0]) && !IsSpace(r[|r| - 1]))
  {
    TrimmedEnds(s);
    before, after := "", "";
    if s == "" {
    } else if IsSpace(s[0]) {
      before, after := TrimSpaceTrims(s[1..]);
      SpaceAround(s[0], before, TrimSpace(s), after);
      before := [s[0]] + before;
      assert s == [s[0]] + s[1..];
    } else if IsSpace(s[|s| - 1]) {
      before, after := TrimSpaceTrims(s[..|s| - 1]);
      SpaceAround(s[|s| - 1], before, TrimSpace(s), after);
      after := after + [s[|s| - 1]];
      assert s == s[..|s| - 1] + [s[|s| - 1]];
    }
  }

  lemma {:induction false} TrimmedEnds(s: string)
    ensures var r := TrimSpace(s); r == "" || (!IsSpace(r[0]) && !IsSpace(r[|r| - 1]))
  {
    if s == "" {
    } else if IsSpace(s[0]) {
      TrimmedEnds(s[1..]);
    } else if IsSpace(s[|s| - 1]) {
      TrimmedEnds(s[..|s| - 1]);
    }
  }

  lemma SpaceAround(x: char, before: string, s: string, after: string)
    requires IsSpace(x) && AllSpace(before) && AllSpace(after)
    ensures AllSpace([x] + before) && [x] + (before + s + after) == ([x] + before) + s + after
    ensures AllSpace(after + [x]) && (before + s + after) + [x] == before + s + (after + [x])
  {}

  /** A nonempty list of supported scopes; there is one, so its sorted set is a singleton. */
  function NormalizeScopes(scopes: seq<string>): Option<seq<string>> {
    if scopes != [] && forall s | s in scopes :: TrimSpace(s) == SCOPE_RUNTIME_VAULT
    then Some([SCOPE_RUNTIME_VAULT]) else None
  }

  predicate ScopesWithin(requested: seq<string>, allowed: seq<string>) {
    NormalizeScopes(requested).Some? && forall s | s in NormalizeScopes(requested).value :: s in allowed
  }

  // ----- Memory and snapshot -----

  datatype World = World(pairings: map<string, PairingState>, grants: map<string, GrantState>)

  const EMPTY := World(map[], map[])

  /** Go's `copy` into a 32-byte array. */
  function Fit32(b: Bytes): (r: Bytes)
    ensures |r| == 32 && (|b| == 32 ==> r == b)
    decreases 32 - |b|
  {
    if |b| >= 32 then b[..32] else Fit32(b + [0])
  }

  function SavePairing(p: PairingState): PersistedPairing {
    PersistedPairing(p.id, p.clientName, p.scopes, p.codeHash, p.approved, p.redeemed)
  }

  function SaveGrant(g: GrantState): PersistedGrant {
    PersistedGrant(g.id, g.clientName, g.scopes, g.revoked, g.tokenHash)
  }

  function LoadPairing(p: PersistedPairing): PairingState {
    PairingState(p.id, p.clientName, p.scopes, "", Fit32(p.codeHash), p.approved, p.redeemed)
  }

  function LoadGrant(g: PersistedGrant): GrantState {
    GrantState(g.id, g.clientName, g.scopes, "", g.revoked, Fit32(g.tokenHash))
  }

  function Save(w: World): Snapshot {
    Snapshot(map k | k in w.pairings :: SavePairing(w.pairings[k]), map k | k in w.grants :: SaveGrant(w.grants[k]))
  }

  function Load(s: Snapshot): World {
    World(map k | k in s.pairings :: LoadPairing(s.pairings[k]), map k | k in s.grants :: LoadGrant(s.grants[k]))
  }

  function Reloaded(persisted: Option<Snapshot>): World {
    if persisted.None? then EMPTY else Load(persisted.value)
  }

  /** What memory holds: digests of 32 bytes, and neither codes nor tokens. */
  predicate Storable(w: World) {
    && (forall k | k in w.pairings :: |w.pairings[k].codeHash| == 32 && w.pairings[k].code == "")
    && (forall k | k in w.grants :: |w.grants[k].tokenHash| == 32 && w.grants[k].token == "")
  }

  lemma LoadUndoesSave(w: World)
    requires Storable(w)
    ensures Load(Save(w)) == w
  {
    var r := Load(Save(w));
    forall k | k in w.pairings ensures r.pairings[k] == w.pairings[k] {
      assert Fit32(w.pairings[k].codeHash) == w.pairings[k].codeHash;
    }
    forall k | k in w.grants ensures r.grants[k] == w.grants[k] {
      assert Fit32(w.grants[k].tokenHash) == w.grants[k].tokenHash;
    }
  }

  // ----- Operations on memory; `stateOk` says whether the snapshot was written -----

  function NewPairing(hash: TextHash, id: string, clientName: string, scopes: seq<string>, code: string): PairingState {
    PairingState(id, clientName, scopes, "", hash(code), false, false)
  }

  function BeginCheck(clientName: string, scopes: seq<string>): Result<seq<string>> {
    if TrimSpace(clientName) == "" then Err(ClientNameRequired)
    else if NormalizeScopes(scopes).None? then Err(InvalidScopes)
    else Ok(NormalizeScopes(scopes).value)
  }

  function BeginWorld(w: World, p: PairingState, stateOk: bool): World {
    var added := w.(pairings := w.pairings[p.id := p]);
    if stateOk then added else added.(pairings := added.pairings - {p.id})
  }

  function ApproveCheck(w: World, id: string): Result<()> {
    if id !in w.pairings then Err(PairingNotFound)
    else if w.pairings[id].redeemed then Err(PairingRedeemed)
    else Ok(())
  }

  /** The rollback clears the flag whether or not this call had set it. */
  function ApproveWorld(w: World, id: string, stateOk: bool): World
    requires id in w.pairings
  {
    w.(pairings := w.pairings[id := w.pairings[id].(approved := stateOk)])
  }

  function RedeemCheck(hash: TextHash, w: World, id: string, code: string, scopes: seq<string>): Result<seq<string>> {
    if TrimSpace(code) == "" then Err(InvalidPairingCode)
    else if NormalizeScopes(scopes).None? then Err(InvalidScopes)
    else if id !in w.pairings then Err(PairingNotFound)
    else if !w.pairings[id].approved then Err(PairingNotApproved)
    else if w.pairings[id].redeemed then Err(PairingRedeemed)
    else if hash(code) != w.pairings[id].codeHash then Err(InvalidPairingCode)
    else if !ScopesWithin(scopes, w.pairings[id].scopes) then Err(ScopeDenied)
    else Ok(NormalizeScopes(scopes).value)
  }

  function NewGrant(hash: TextHash, grantId: string, clientName: string, scopes: seq<string>, token: string)
    : GrantState
  {
    GrantState(grantId, clientName, scopes, "", false, hash(token))
  }

  function RedeemWorld(w: World, id: string, grant: GrantState, stateOk: bool): World
    requires id in w.pairings
  {
    World(w.pairings[id := w.pairings[id].(redeemed := stateOk, code := "")],
          if stateOk then w.grants[grant.id := grant] else w.grants[grant.id := grant] - {grant.id})
  }

  /** As with approval, the rollback clears the flag unconditionally. */
  function RevokeWorld(w: World, id: string, stateOk: bool): World
    requires id in w.grants
  {
    w.(grants := w.grants[id := w.grants[id].(revoked := stateOk, token := "")])
  }

  // ----- Runs -----

  datatype Event =
    | Began(pairingId: string, clientName: string, scopes: seq<string>, code: string)
    | Approved(pairingId: string)
    | Redeemed(pairingId: string, grantId: string, clientName: string, scopes: seq<string>, code: string, token: string)
    | Revoked(grantId: string)

  datatype System = System(world: World, persisted: Option<Snapshot>, used: set<string>, log: seq<Event>)

  const INITIAL := System(EMPTY, None, {}, [])

  datatype Action =
    | Begin(clientName: string, scopes: seq<string>, id: string, code: string, stateOk: bool)
    | Approve(id: string, stateOk: bool)
    | Redeem(id: string, code: string, scopes: seq<string>, grantId: string, token: string, stateOk: bool)
    | Revoke(id: string, stateOk: bool)
    | Reload

  /** Generated identifiers are fresh. */
  predicate Enabled(s: System, a: Action) {
    match a
    case Begin(_, _, id, _, _) => id !in s.used
    case Redeem(_, _, _, grantId, _, _) => grantId !in s.used
    case _ => true
  }

  function Persist(s: System, w: World, stateOk: bool, e: Event): System {
    if stateOk then s.(world := w, persisted := Some(Save(w)), log := s.log + [e]) else s.(world := w)
  }

  function Step(hash: TextHash, s: System, a: Action): System {
    if !Enabled(s, a) then s else
    match a
    case Begin(clientName, scopes, id, code, stateOk) =>
      var r := BeginCheck(clientName, scopes);
      if r.Err? then s else
      var p := NewPairing(hash, id, TrimSpace(clientName), r.value, code);
      Persist(s.(used := s.used + {id}), BeginWorld(s.world, p, stateOk), stateOk,
              Began(id, p.clientName, p.scopes, code))
    case Approve(id, stateOk) =>
      if ApproveCheck(s.world, id).Err? then s
      else Persist(s, ApproveWorld(s.world, id, stateOk), stateOk, Approved(id))
    case Redeem(id, code, scopes, grantId, token, stateOk) =>
      var r := RedeemCheck(hash, s.world, id, code, scopes);
      if r.Err? then s else
      var g := NewGrant(hash, grantId, s.world.pairings[id].clientName, r.value, token);
      Persist(s.(used := s.used + {grantId}), RedeemWorld(s.world, id, g, stateOk), stateOk,
              Redeemed(id, grantId, g.clientName, r.value, code, token))
    case Revoke(id, stateOk) =>
      if id !in s.world.grants then s
      else Persist(s, RevokeWorld(s.world, id, stateOk), stateOk, Revoked(id))
    case Reload => s.(world := Reloaded(s.persisted))
  }

  function Run(hash: TextHash, actions: seq<Action>): System {
    if actions == [] then INITIAL else Step(hash, Run(hash, actions[..|actions| - 1]), actions[|actions| - 1])
  }

  // ----- The invariant -----

  ghost predicate RedeemedIn(log: seq<Event>, pairingId: string) {
    exists e | e in log :: e.Redeemed? && e.pairingId == pairingId
  }

  ghost predicate IssuedIn(hash: TextHash, log: seq<Event>, g: GrantState) {
    exists e | e in log :: e.Redeemed? && IssuedAs(hash, e, g)
  }

  predicate IssuedAs(hash: TextHash, e: Event, g: GrantState)
    requires e.Redeemed?
  {
    e.grantId == g.id && e.clientName == g.clientName && e.scopes == g.scopes && hash(e.token) == g.tokenHash
  }

  /** `p` is justified by the log: it began with these fields, and its flags were earned. */
  ghost predicate PairingOk(hash: TextHash, s: System, k: string, p: PairingState) {
    && p.id == k && k in s.used && |p.codeHash| == 32 && p.code == ""
    && BeganAs(hash, s.log, k, p)
    && (p.approved ==> Approved(k) in s.log)
    && (p.redeemed <==> RedeemedIn(s.log, k))
  }

  /** The pairing began, and what was generated and recorded then is what it holds. */
  ghost predicate BeganAs(hash: TextHash, log: seq<Event>, k: string, p: PairingState) {
    && (exists e | e in log :: e.Began? && e.pairingId == k)
    && (forall e | e in log && e.Began? && e.pairingId == k ::
          e.clientName == p.clientName && e.scopes == p.scopes && hash(e.code) == p.codeHash)
  }

  ghost predicate GrantOk(hash: TextHash, s: System, k: string, g: GrantState) {
    && g.id == k && k in s.used && |g.tokenHash| == 32 && g.token == ""
    && IssuedIn(hash, s.log, g)
  }

  ghost predicate WorldOk(hash: TextHash, s: System, w: World) {
    && (forall k | k in w.pairings :: PairingOk(hash, s, k, w.pairings[k]))
    && (forall k | k in w.grants :: GrantOk(hash, s, k, w.grants[k]))
  }

  /** The redemption presents the code generated for the pairing, names its client, and stays within its scopes. */
  predicate Entitled(hash: TextHash, b: Event, e: Event)
    requires b.Began? && e.Redeemed?
  {
    hash(e.code) == hash(b.code) && e.clientName == b.clientName && forall x | x in e.scopes :: x in b.scopes
  }

  /** At position `j` a grant is issued: the pairing began and was approved earlier, and not redeemed before. */
  ghost predicate RedemptionOk(hash: TextHash, log: seq<Event>, j: nat)
    requires j < |log| && log[j].Redeemed?
  {
    var e := log[j];
    && Approved(e.pairingId) in log[..j]
    && (exists b | b in log[..j] :: b.Began? && b.pairingId == e.pairingId)
    && (forall b | b in log[..j] && b.Began? && b.pairingId == e.pairingId :: Entitled(hash, b, e))
    && (forall b | b in log[..j] && b.Redeemed? :: b.pairingId != e.pairingId && b.grantId != e.grantId)
  }

  ghost predicate RedemptionsOk(hash: TextHash, log: seq<Event>) {
    forall j | 0 <= j < |log| && log[j].Redeemed? :: RedemptionOk(hash, log, j)
  }

  /** Memory is the reloaded snapshot, except that a failed repeat call may have cleared a flag in memory. */
  ghost predicate DiskAhead(w: World, d: World) {
    && w.pairings.Keys == d.pairings.Keys
    && w.grants.Keys == d.grants.Keys
    && (forall k | k in w.pairings :: PairingBehind(w.pairings[k], d.pairings[k]))
    && (forall k | k in w.grants :: GrantBehind(w.grants[k], d.grants[k]))
  }

  ghost predicate PairingBehind(p: PairingState, d: PairingState) {
    p == d || p == d.(approved := false)
  }

  ghost predicate GrantBehind(g: GrantState, d: GrantState) {
    g == d || g == d.(revoked := false)
  }

  /** Redemptions are of known pairings and used identifiers; pairings have used identifiers and a client's name. */
  ghost predicate LogKnown(s: System) {
    && (forall e | e in s.log && e.Redeemed? :: e.grantId in s.used && e.pairingId in s.world.pairings)
    && (forall e | e in s.log && e.Began? :: e.pairingId in s.used && e.clientName != "")
  }

  /** The invariant, with `d` the world a restart would load. */
  ghost predicate InvWith(hash: TextHash, s: System, d: World) {
    && WorldOk(hash, s, s.world)
    && WorldOk(hash, s, d)
    && DiskAhead(s.world, d)
    && RedemptionsOk(hash, s.log)
    && LogKnown(s)
  }

  ghost predicate Inv(hash: TextHash, s: System) {
    InvWith(hash, s, Reloaded(s.persisted))
  }

  lemma DiskAheadOfItself(w: World)
    ensures DiskAhead(w, w)
  {}

  lemma WorldOkStorable(hash: TextHash, s: System, w: World)
    requires WorldOk(hash, s, w)
    ensures Storable(w)
  {
    forall k | k in w.pairings ensures |w.pairings[k].codeHash| == 32 && w.pairings[k].code == "" {
      assert PairingOk(hash, s, k, w.pairings[k]);
    }
    forall k | k in w.grants ensures |w.grants[k].tokenHash| == 32 && w.grants[k].token == "" {
      assert GrantOk(hash, s, k, w.grants[k]);
    }
  }

  lemma KeysUsed(hash: TextHash, s: System)
    requires WorldOk(hash, s, s.world)
    ensures s.world.pairings.Keys <= s.used && s.world.grants.Keys <= s.used
  {
    forall k | k in s.world.pairings ensures k in s.used { assert PairingOk(hash, s, k, s.world.pairings[k]); }
    forall k | k in s.world.grants ensures k in s.used { assert GrantOk(hash, s, k, s.world.grants[k]); }
  }

  /** An appended event other than a redemption of `k` changes nothing the log says of `k`. */
  lemma PairingOkGrows(hash: TextHash, s: System, t: System, e: Event, k: string, p: PairingState)
    requires PairingOk(hash, s, k, p) && s.used <= t.used && t.log == s.log + [e]
    requires e.Redeemed? ==> e.pairingId != k
    requires e.Began? ==> e.pairingId != k
    ensures PairingOk(hash, t, k, p)
  {
    var b :| b in s.log && b.Began? && b.pairingId == k;
    assert b in t.log;
    if RedeemedIn(s.log, k) {
      var x :| x in s.log && x.Redeemed? && x.pairingId == k;
      assert x in t.log;
    }
    if RedeemedIn(t.log, k) {
      var x :| x in t.log && x.Redeemed? && x.pairingId == k;
      assert x in s.log;
    }
  }

  lemma GrantOkGrows(hash: TextHash, s: System, t: System, e: Event, k: string, g: GrantState)
    requires GrantOk(hash, s, k, g) && s.used <= t.used && t.log == s.log + [e]
    ensures GrantOk(hash, t, k, g)
  {
    var x :| x in s.log && x.Redeemed? && IssuedAs(hash, x, g);
    assert x in t.log;
  }

  lemma WorldOkGrows(hash: TextHash, s: System, t: System, e: Event, w: World)
    requires WorldOk(hash, s, w) && s.used <= t.used && t.log == s.log + [e] && !e.Redeemed?
    requires e.Began? ==> e.pairingId !in s.used
    ensures WorldOk(hash, t, w)
  {
    forall k | k in w.pairings ensures PairingOk(hash, t, k, w.pairings[k]) {
      PairingOkGrows(hash, s, t, e, k, w.pairings[k]);
    }
    forall k | k in w.grants ensures GrantOk(hash, t, k, w.grants[k]) { GrantOkGrows(hash, s, t, e, k, w.grants[k]); }
  }

  /** With the log unchanged, every justification stands. */
  lemma WorldOkSame(hash: TextHash, s: System, t: System, w: World)
    requires WorldOk(hash, s, w) && s.used <= t.used && t.log == s.log
    ensures WorldOk(hash, t, w)
  {
    forall k | k in w.pairings ensures PairingOk(hash, t, k, w.pairings[k]) {
      assert PairingOk(hash, s, k, w.pairings[k]);
    }
    forall k | k in w.grants ensures GrantOk(hash, t, k, w.grants[k]) { assert GrantOk(hash, s, k, w.grants[k]); }
  }

  lemma WithPairingOk(hash: TextHash, s: System, w: World, k: string, p: PairingState)
    requires WorldOk(hash, s, w) && PairingOk(hash, s, k, p)
    ensures WorldOk(hash, s, w.(pairings := w.pairings[k := p]))
  {}

  lemma WithGrantOk(hash: TextHash, s: System, w: World, k: string, g: GrantState)
    requires WorldOk(hash, s, w) && GrantOk(hash, s, k, g)
    ensures WorldOk(hash, s, w.(grants := w.grants[k := g]))
  {}

  lemma AppendRedemptions(hash: TextHash, log: seq<Event>, e: Event)
    requires RedemptionsOk(hash, log) && (e.Redeemed? ==> RedemptionOk(hash, log + [e], |log|))
    ensures RedemptionsOk(hash, log + [e])
  {
    var longer := log + [e];
    forall j | 0 <= j < |longer| && longer[j].Redeemed? ensures RedemptionOk(hash, longer, j) {
      if j < |log| {
        assert RedemptionOk(hash, log, j);
        assert longer[..j] == log[..j];
      }
    }
  }

  /** A write succeeded: what a restart would load is the memory just saved. */
  lemma WrittenInv(hash: TextHash, s: System, t: System, e: Event)
    requires RedemptionsOk(hash, s.log) && LogKnown(s) && s.used <= t.used && t.log == s.log + [e] && !e.Redeemed?
    requires e.Began? ==> e.pairingId in t.used && e.clientName != ""
    requires s.world.pairings.Keys <= t.world.pairings.Keys && WorldOk(hash, t, t.world)
    ensures InvWith(hash, t, t.world)
  {
    AppendRedemptions(hash, s.log, e);
    KnownAppend(s, t, e);
    DiskAheadOfItself(t.world);
  }

  /** A write failed and left memory at most behind the disk. */
  lemma NotWrittenInv(hash: TextHash, s: System, t: System, d: World)
    requires InvWith(hash, s, d) && s.used <= t.used && t.log == s.log
    requires WorldOk(hash, s, t.world) && DiskAhead(t.world, d)
    ensures InvWith(hash, t, d)
  {
    WorldOkSame(hash, s, t, t.world);
    WorldOkSame(hash, s, t, d);
  }

  lemma KnownAppend(s: System, t: System, e: Event)
    requires LogKnown(s) && t.log == s.log + [e] && s.used <= t.used && s.world.pairings.Keys <= t.world.pairings.Keys
    requires e.Redeemed? ==> e.grantId in t.used && e.pairingId in t.world.pairings
    requires e.Began? ==> e.pairingId in t.used && e.clientName != ""
    ensures LogKnown(t)
  {}

  // ----- Each operation keeps the invariant; `d` is what a restart would load before it -----

  lemma BeginWrittenInv(hash: TextHash, s: System, p: PairingState, code: string)
    requires WorldOk(hash, s, s.world) && RedemptionsOk(hash, s.log) && LogKnown(s) && hash(code) == p.codeHash
    requires p.clientName != ""
    requires p.id !in s.used && |p.codeHash| == 32 && p.code == "" && !p.approved && !p.redeemed
    ensures var t := Persist(s.(used := s.used + {p.id}), BeginWorld(s.world, p, true), true,
                             Began(p.id, p.clientName, p.scopes, code));
      InvWith(hash, t, t.world)
  {
    var e := Began(p.id, p.clientName, p.scopes, code);
    var t := Persist(s.(used := s.used + {p.id}), BeginWorld(s.world, p, true), true, e);
    BegunOk(hash, s, t, p, e);
    WrittenInv(hash, s, t, e);
  }

  /** A pairing that has just begun is justified, beside all that was. */
  lemma BegunOk(hash: TextHash, s: System, t: System, p: PairingState, e: Event)
    requires WorldOk(hash, s, s.world) && LogKnown(s) && e.Began? && e == Began(p.id, p.clientName, p.scopes, e.code)
    requires p.id !in s.used && hash(e.code) == p.codeHash
    requires |p.codeHash| == 32 && p.code == "" && !p.approved && !p.redeemed
    requires t.log == s.log + [e] && t.used == s.used + {p.id}
    requires t.world == s.world.(pairings := s.world.pairings[p.id := p])
    ensures WorldOk(hash, t, t.world)
  {
    KeysUsed(hash, s);
    WorldOkGrows(hash, s, t, e, s.world);
    BegunNew(hash, s, t, p, e);
    WithPairingOk(hash, t, s.world, p.id, p);
  }

  lemma BegunNew(hash: TextHash, s: System, t: System, p: PairingState, e: Event)
    requires WorldOk(hash, s, s.world) && LogKnown(s) && e.Began? && e == Began(p.id, p.clientName, p.scopes, e.code)
    requires p.id !in s.used && hash(e.code) == p.codeHash
    requires |p.codeHash| == 32 && p.code == "" && !p.approved && !p.redeemed
    requires t.log == s.log + [e] && t.used == s.used + {p.id}
    ensures PairingOk(hash, t, p.id, p)
  {
    KeysUsed(hash, s);
    assert e in t.log;
    forall x | x in t.log && x.Redeemed? ensures x.pairingId != p.id { assert x in s.log; }
    assert !RedeemedIn(t.log, p.id);
    assert forall x | x in t.log && x.Began? && x.pairingId == p.id :: x == e;
  }

  lemma BeginFailedInv(hash: TextHash, s: System, d: World, p: PairingState, e: Event)
    requires InvWith(hash, s, d) && p.id !in s.used
    ensures var t := Persist(s.(used := s.used + {p.id}), BeginWorld(s.world, p, false), false, e);
      InvWith(hash, t, d) && t.world == s.world
  {
    var t := Persist(s.(used := s.used + {p.id}), BeginWorld(s.world, p, false), false, e);
    KeysUsed(hash, s);
    assert t.world.pairings == s.world.pairings;
    NotWrittenInv(hash, s, t, d);
  }

  /** Clearing an approval in memory leaves the disk ahead, and equal only if there was nothing to clear. */
  lemma ApprovalCleared(w: World, d: World, id: string)
    requires DiskAhead(w, d) && id in w.pairings
    ensures var w' := ApproveWorld(w, id, false);
      DiskAhead(w', d) && (w == d ==> (w' == d <==> !w.pairings[id].approved))
  {
    var w' := ApproveWorld(w, id, false);
    assert PairingBehind(w.pairings[id], d.pairings[id]);
    if w.pairings[id].approved { assert w'.pairings[id] != w.pairings[id]; } else { assert w'.pairings == w.pairings; }
  }

  lemma ApproveInv(hash: TextHash, s: System, d: World, id: string, stateOk: bool)
    requires InvWith(hash, s, d) && id in s.world.pairings
    ensures var t := Persist(s, ApproveWorld(s.world, id, stateOk), stateOk, Approved(id));
      if stateOk then InvWith(hash, t, t.world)
      else InvWith(hash, t, d) && (s.world == d ==> (t.world == d <==> !s.world.pairings[id].approved))
  {
    var e := Approved(id);
    var t := Persist(s, ApproveWorld(s.world, id, stateOk), stateOk, e);
    var p := s.world.pairings[id];
    assert PairingOk(hash, s, id, p);
    if stateOk {
      ApprovedOk(hash, s, t, id, p);
      WrittenInv(hash, s, t, e);
    } else {
      WithPairingOk(hash, s, s.world, id, p.(approved := false));
      ApprovalCleared(s.world, d, id);
      NotWrittenInv(hash, s, t, d);
    }
  }

  lemma ApprovedOk(hash: TextHash, s: System, t: System, id: string, p: PairingState)
    requires WorldOk(hash, s, s.world) && PairingOk(hash, s, id, p)
    requires t.log == s.log + [Approved(id)] && t.used == s.used
    requires t.world == s.world.(pairings := s.world.pairings[id := p.(approved := true)])
    ensures WorldOk(hash, t, t.world)
  {
    var e := Approved(id);
    WorldOkGrows(hash, s, t, e, s.world);
    PairingOkGrows(hash, s, t, e, id, p);
    assert e in t.log;
    WithPairingOk(hash, t, s.world, id, p.(approved := true));
  }

  /** Clearing a revocation in memory leaves the disk ahead, and equal only if there was nothing to clear. */
  lemma RevocationCleared(w: World, d: World, id: string)
    requires DiskAhead(w, d) && id in w.grants && w.grants[id].token == ""
    ensures var w' := RevokeWorld(w, id, false);
      DiskAhead(w', d) && (w == d ==> (w' == d <==> !w.grants[id].revoked))
  {
    var w' := RevokeWorld(w, id, false);
    assert GrantBehind(w.grants[id], d.grants[id]);
    if w.grants[id].revoked { assert w'.grants[id] != w.grants[id]; } else { assert w'.grants == w.grants; }
  }

  lemma RevokeInv(hash: TextHash, s: System, d: World, id: string, stateOk: bool)
    requires InvWith(hash, s, d) && id in s.world.grants
    ensures var t := Persist(s, RevokeWorld(s.world, id, stateOk), stateOk, Revoked(id));
      if stateOk then InvWith(hash, t, t.world)
      else InvWith(hash, t, d) && (s.world == d ==> (t.world == d <==> !s.world.grants[id].revoked))
  {
    var e := Revoked(id);
    var t := Persist(s, RevokeWorld(s.world, id, stateOk), stateOk, e);
    var g := s.world.grants[id];
    assert GrantOk(hash, s, id, g);
    if stateOk {
      WorldOkGrows(hash, s, t, e, s.world);
      GrantOkGrows(hash, s, t, e, id, g);
      WithGrantOk(hash, t, s.world, id, g.(revoked := true));
      WrittenInv(hash, s, t, e);
    } else {
      WithGrantOk(hash, s, s.world, id, g.(revoked := false));
      RevocationCleared(s.world, d, id);
      NotWrittenInv(hash, s, t, d);
    }
  }

  /** What a redemption needs: an approved, unredeemed pairing and a grant within its scopes. */
  ghost predicate Redeemable(hash: TextHash, s: System, id: string, g: GrantState, code: string, token: string) {
    && id in s.world.pairings && s.world.pairings[id].approved && !s.world.pairings[id].redeemed
    && g.id !in s.used && |g.tokenHash| == 32 && g.tokenHash == hash(token) && g.token == "" && !g.revoked
    && hash(code) == s.world.pairings[id].codeHash && g.clientName == s.world.pairings[id].clientName
    && (forall x | x in g.scopes :: x in s.world.pairings[id].scopes)
  }

  lemma RedemptionAppended(hash: TextHash, s: System, id: string, g: GrantState, code: string, token: string)
    requires WorldOk(hash, s, s.world) && RedemptionsOk(hash, s.log) && LogKnown(s)
    requires Redeemable(hash, s, id, g, code, token)
    ensures RedemptionsOk(hash, s.log + [Redeemed(id, g.id, g.clientName, g.scopes, code, token)])
  {
    var e := Redeemed(id, g.id, g.clientName, g.scopes, code, token);
    var p := s.world.pairings[id];
    assert PairingOk(hash, s, id, p);
    var longer := s.log + [e];
    assert longer[..|s.log|] == s.log;
    forall b | b in s.log && b.Redeemed? ensures b.pairingId != id && b.grantId != g.id {
      assert RedeemedIn(s.log, b.pairingId);
    }
    AppendRedemptions(hash, s.log, e);
  }

  lemma RedeemWrittenInv(hash: TextHash, s: System, id: string, g: GrantState, code: string, token: string)
    requires WorldOk(hash, s, s.world) && RedemptionsOk(hash, s.log) && LogKnown(s)
    requires Redeemable(hash, s, id, g, code, token)
    ensures var t := Persist(s.(used := s.used + {g.id}), RedeemWorld(s.world, id, g, true), true,
                             Redeemed(id, g.id, g.clientName, g.scopes, code, token));
      InvWith(hash, t, t.world)
  {
    var e := Redeemed(id, g.id, g.clientName, g.scopes, code, token);
    var t := Persist(s.(used := s.used + {g.id}), RedeemWorld(s.world, id, g, true), true, e);
    RedeemedWorldOk(hash, s, t, id, g, code, token);
    RedemptionAppended(hash, s, id, g, code, token);
    KnownAppend(s, t, e);
    DiskAheadOfItself(t.world);
  }

  lemma RedeemFailedInv(hash: TextHash, s: System, d: World, id: string, g: GrantState, code: string, token: string)
    requires InvWith(hash, s, d) && Redeemable(hash, s, id, g, code, token)
    ensures var t := Persist(s.(used := s.used + {g.id}), RedeemWorld(s.world, id, g, false), false,
                             Redeemed(id, g.id, g.clientName, g.scopes, code, token));
      InvWith(hash, t, d) && t.world == s.world
  {
    KeysUsed(hash, s);
    assert PairingOk(hash, s, id, s.world.pairings[id]);
    RedeemRolledBack(s.world, id, g);
    NotWrittenInv(hash, s, s.(used := s.used + {g.id}), d);
  }

  /** A redemption that could not be written leaves memory as it was. */
  lemma RedeemRolledBack(w: World, id: string, g: GrantState)
    requires id in w.pairings && !w.pairings[id].redeemed && w.pairings[id].code == "" && g.id !in w.grants
    ensures RedeemWorld(w, id, g, false) == w
  {
    var r := RedeemWorld(w, id, g, false);
    assert r.pairings == w.pairings && r.grants == w.grants;
  }

  lemma RedeemedWorldOk(hash: TextHash, s: System, t: System, id: string, g: GrantState, code: string, token: string)
    requires WorldOk(hash, s, s.world) && Redeemable(hash, s, id, g, code, token)
    requires t == Persist(s.(used := s.used + {g.id}), RedeemWorld(s.world, id, g, true), true,
                          Redeemed(id, g.id, g.clientName, g.scopes, code, token))
    ensures WorldOk(hash, t, t.world)
  {
    var e := Redeemed(id, g.id, g.clientName, g.scopes, code, token);
    assert e in t.log;
    forall k | k in t.world.pairings ensures PairingOk(hash, t, k, t.world.pairings[k]) {
      assert PairingOk(hash, s, k, s.world.pairings[k]);
      if k != id {
        PairingOkGrows(hash, s, t, e, k, s.world.pairings[k]);
      } else {
        assert RedeemedIn(t.log, id);
      }
    }
    forall k | k in t.world.grants ensures GrantOk(hash, t, k, t.world.grants[k]) {
      if k != g.id { GrantOkGrows(hash, s, t, e, k, s.world.grants[k]); } else { assert IssuedIn(hash, t.log, g); }
    }
  }

  /** What the checks of `redeemWithScopes` establish. */
  lemma RedeemCheckOk(hash: TextHash, s: System, a: Action)
    requires Digests(hash) && a.Redeem? && Enabled(s, a)
    requires RedeemCheck(hash, s.world, a.id, a.code, a.scopes).Ok?
    ensures Redeemable(hash, s, a.id, GrantFor(hash, s, a), a.code, a.token)
    ensures Step(hash, s, a) ==
      Persist(s.(used := s.used + {a.grantId}), RedeemWorld(s.world, a.id, GrantFor(hash, s, a), a.stateOk), a.stateOk,
              Redeemed(a.id, a.grantId, GrantFor(hash, s, a).clientName, GrantFor(hash, s, a).scopes, a.code, a.token))
  {}

  function GrantFor(hash: TextHash, s: System, a: Action): GrantState
    requires a.Redeem? && RedeemCheck(hash, s.world, a.id, a.code, a.scopes).Ok?
  {
    NewGrant(hash, a.grantId, s.world.pairings[a.id].clientName,
             RedeemCheck(hash, s.world, a.id, a.code, a.scopes).value, a.token)
  }

  /** The calls whose failed write leaves memory behind the snapshot: a repeat of an approval or a revocation. */
  predicate RepeatFails(s: System, a: Action) {
    match a
    case Approve(id, stateOk) =>
      !stateOk && id in s.world.pairings && !s.world.pairings[id].redeemed && s.world.pairings[id].approved
    case Revoke(id, stateOk) => !stateOk && id in s.world.grants && s.world.grants[id].revoked
    case _ => false
  }

  /** The step saved what it left in memory, or left the snapshot alone and memory in step unless a repeat failed. */
  ghost predicate SavedOrLeft(hash: TextHash, s: System, d: World, a: Action, t: System) {
    || (t.persisted == Some(Save(t.world)) && InvWith(hash, t, t.world) && !RepeatFails(s, a))
    || (t.persisted == s.persisted && InvWith(hash, t, d) && (s.world == d ==> (t.world == d <==> !RepeatFails(s, a))))
  }

  lemma StepInvWith(hash: TextHash, s: System, d: World, a: Action)
    requires Digests(hash) && InvWith(hash, s, d) && !a.Reload?
    ensures SavedOrLeft(hash, s, d, a, Step(hash, s, a))
  {
    if Enabled(s, a) {
      match a
      case Begin(_, _, _, _, _) => BeginStepInv(hash, s, d, a);
      case Approve(id, stateOk) => if ApproveCheck(s.world, id).Ok? { ApproveInv(hash, s, d, id, stateOk); }
      case Redeem(_, _, _, _, _, _) => RedeemStepInv(hash, s, d, a);
      case Revoke(id, stateOk) => if id in s.world.grants { RevokeInv(hash, s, d, id, stateOk); }
    }
  }

  lemma BeginStepInv(hash: TextHash, s: System, d: World, a: Action)
    requires Digests(hash) && InvWith(hash, s, d) && a.Begin? && Enabled(s, a)
    ensures SavedOrLeft(hash, s, d, a, Step(hash, s, a))
  {
    var r := BeginCheck(a.clientName, a.scopes);
    if r.Ok? {
      var p := NewPairing(hash, a.id, TrimSpace(a.clientName), r.value, a.code);
      if a.stateOk { BeginWrittenInv(hash, s, p, a.code); }
      else { BeginFailedInv(hash, s, d, p, Began(a.id, p.clientName, p.scopes, a.code)); }
    }
  }

  lemma RedeemStepInv(hash: TextHash, s: System, d: World, a: Action)
    requires Digests(hash) && InvWith(hash, s, d) && a.Redeem? && Enabled(s, a)
    ensures SavedOrLeft(hash, s, d, a, Step(hash, s, a))
  {
    if RedeemCheck(hash, s.world, a.id, a.code, a.scopes).Ok? {
      RedeemCheckOk(hash, s, a);
      var g := GrantFor(hash, s, a);
      if a.stateOk { RedeemWrittenInv(hash, s, a.id, g, a.code, a.token); }
      else { RedeemFailedInv(hash, s, d, a.id, g, a.code, a.token); }
    }
  }

  ghost predicate InSync(s: System) {
    s.world == Reloaded(s.persisted)
  }

  /**
   Every step keeps the invariant; from a state in which memory equals the reloaded snapshot it
   leads to another one exactly when it is not a failing repeat.
   */
  lemma StepInv(hash: TextHash, s: System, a: Action)
    requires Digests(hash) && Inv(hash, s)
    ensures Inv(hash, Step(hash, s, a))
    ensures InSync(s) ==> (InSync(Step(hash, s, a)) <==> !RepeatFails(s, a))
  {
    var d, t := Reloaded(s.persisted), Step(hash, s, a);
    if a.Reload? {
      ReloadInv(hash, s, d);
    } else {
      StepInvWith(hash, s, d, a);
      if t.persisted == Some(Save(t.world)) && InvWith(hash, t, t.world) && !RepeatFails(s, a) {
        ReloadedAfterSave(hash, t);
      }
    }
  }

  lemma ReloadInv(hash: TextHash, s: System, d: World)
    requires InvWith(hash, s, d)
    ensures InvWith(hash, s.(world := d), d)
  {
    NotWrittenInv(hash, s, s.(world := d), d);
  }

  lemma ReloadedAfterSave(hash: TextHash, t: System)
    requires WorldOk(hash, t, t.world) && t.persisted == Some(Save(t.world))
    ensures Reloaded(t.persisted) == t.world
  {
    WorldOkStorable(hash, t, t.world);
    LoadUndoesSave(t.world);
  }

  lemma {:induction false} RunInv(hash: TextHash, actions: seq<Action>)
    requires Digests(hash)
    ensures Inv(hash, Run(hash, actions))
  {
    if actions != [] {
      RunInv(hash, actions[..|actions| - 1]);
      StepInv(hash, Run(hash, actions[..|actions| - 1]), actions[|actions| - 1]);
    }
  }

  lemma RunOn(hash: TextHash, actions: seq<Action>, a: Action)
    ensures Run(hash, actions + [a]) == Step(hash, Run(hash, actions), a)
  {
    assert (actions + [a])[..|actions|] == actions;
  }

  // ----- Main results -----

  /** Each pairing yields at most one grant, after its approval and within its scopes, over every run. */
  lemma GrantSafety(hash: TextHash, actions: seq<Action>, j: nat)
    requires Digests(hash)
    requires j < |Run(hash, actions).log| && Run(hash, actions).log[j].Redeemed?
    ensures RedemptionOk(hash, Run(hash, actions).log, j)
    ensures Run(hash, actions).log[j].clientName != ""
  {
    RunInv(hash, actions);
    var log := Run(hash, actions).log;
    var b :| b in log[..j] && b.Began? && b.pairingId == log[j].pairingId;
    assert b in log && Entitled(hash, b, log[j]);
  }

  /**
   Whatever a token is accepted for traces back to one redemption of an approved pairing that
   began with that scope: no failed write and no restart can mint authority.
   */
  lemma AuthorityTraces(hash: TextHash, actions: seq<Action>, k: string, token: string, scope: string)
    requires Digests(hash)
    requires Authorizes(hash, Run(hash, actions).world, k, token, scope)
    ensures exists j :: IssuedAt(hash, Run(hash, actions).log, j, k, token, scope)
  {
    RunInv(hash, actions);
    var s := Run(hash, actions);
    var g := s.world.grants[k];
    assert GrantOk(hash, s, k, g);
    var e :| e in s.log && e.Redeemed? && IssuedAs(hash, e, g);
    var j :| 0 <= j < |s.log| && s.log[j] == e;
    assert IssuedAt(hash, s.log, j, k, token, scope);
  }

  ghost predicate IssuedAt(hash: TextHash, log: seq<Event>, j: int, k: string, token: string, scope: string) {
    && 0 <= j < |log| && log[j].Redeemed? && log[j].grantId == k
    && hash(log[j].token) == hash(token) && scope in log[j].scopes
    && RedemptionOk(hash, log, j)
  }

  /** Grant `k` lets the holder of `token` use `scope`. */
  predicate Authorizes(hash: TextHash, w: World, k: string, token: string, scope: string) {
    k in w.grants && w.grants[k].tokenHash == hash(token) && !w.grants[k].revoked && scope in w.grants[k].scopes
  }

  /** No action of the run repeats an approval or a revocation with a failing write. */
  predicate NoFailedRepeat(hash: TextHash, actions: seq<Action>) {
    actions == [] ||
    var before := actions[..|actions| - 1];
    NoFailedRepeat(hash, before) && !RepeatFails(Run(hash, before), actions[|actions| - 1])
  }

  lemma {:induction false} MemoryEqualsSnapshot(hash: TextHash, actions: seq<Action>)
    requires Digests(hash) && NoFailedRepeat(hash, actions)
    ensures InSync(Run(hash, actions))
  {
    if actions != [] {
      var before := actions[..|actions| - 1];
      MemoryEqualsSnapshot(hash, before);
      RunInv(hash, before);
      StepInv(hash, Run(hash, before), actions[|actions| - 1]);
    }
  }

  /** A revoked grant stays revoked through a step exactly when the step is not a failing repeat of its revocation. */
  lemma RevocationStandsIff(hash: TextHash, actions: seq<Action>, a: Action, k: string)
    requires Digests(hash)
    requires var w := Run(hash, actions).world; k in w.grants && w.grants[k].revoked
    ensures var w := Run(hash, actions + [a]).world;
      && k in w.grants
      && (w.grants[k].revoked <==> a != Revoke(k, false))
  {
    RunInv(hash, actions);
    RunOn(hash, actions, a);
    RevokedStep(hash, Run(hash, actions), a, k);
  }

  lemma RevokedStep(hash: TextHash, s: System, a: Action, k: string)
    requires Inv(hash, s) && k in s.world.grants && s.world.grants[k].revoked
    ensures k in Step(hash, s, a).world.grants
    ensures Step(hash, s, a).world.grants[k].revoked <==> a != Revoke(k, false)
  {
    if a.Reload? {
      RevokedOnDisk(hash, s, Reloaded(s.persisted), k);
    } else if a.Revoke? {
      RevokeTouchesOne(hash, s, a, k);
    } else {
      KeysUsed(hash, s);
      OthersKeepGrant(hash, s, a, k);
    }
  }

  lemma RevokedOnDisk(hash: TextHash, s: System, d: World, k: string)
    requires InvWith(hash, s, d) && k in s.world.grants && s.world.grants[k].revoked
    ensures k in d.grants && d.grants[k].revoked
  {
    assert GrantBehind(s.world.grants[k], d.grants[k]);
  }

  lemma RevokeTouchesOne(hash: TextHash, s: System, a: Action, k: string)
    requires k in s.world.grants && s.world.grants[k].revoked && a.Revoke?
    ensures k in Step(hash, s, a).world.grants
    ensures Step(hash, s, a).world.grants[k].revoked <==> a != Revoke(k, false)
  {}

  lemma OthersKeepGrant(hash: TextHash, s: System, a: Action, k: string)
    requires k in s.world.grants && k in s.used && !a.Reload? && !a.Revoke?
    ensures k in Step(hash, s, a).world.grants && Step(hash, s, a).world.grants[k] == s.world.grants[k]
  {}

  /** The failing family is inhabited: revoke, fail to revoke again, and the token works again. */
  lemma FailedRepeatRestoresGrant(hash: TextHash, actions: seq<Action>, k: string, token: string, scope: string)
    requires Digests(hash) && Authorizes(hash, Run(hash, actions).world, k, token, scope)
    ensures !Authorizes(hash, Run(hash, actions + [Revoke(k, true)]).world, k, token, scope)
    ensures Authorizes(hash, Run(hash, actions + [Revoke(k, true), Revoke(k, false)]).world, k, token, scope)
  {
    var one, two := actions + [Revoke(k, true)], actions + [Revoke(k, true), Revoke(k, false)];
    assert one[..|actions|] == actions;
    assert two[..|one|] == one;
  }

  // ----- What is granted -----

  /** The code generated for a pairing has the hash of `code`. */
  ghost predicate CodeOf(hash: TextHash, log: seq<Event>, id: string, code: string) {
    exists b | b in log :: b.Began? && b.pairingId == id && hash(b.code) == hash(code)
  }

  /** Which calls redeem: the code generated for an approved pairing, not redeemed before, for scopes it has. */
  lemma RedeemsIff(hash: TextHash, actions: seq<Action>, id: string, code: string, scopes: seq<string>)
    requires Digests(hash)
    ensures var s := Run(hash, actions);
      RedeemCheck(hash, s.world, id, code, scopes).Ok? <==>
        && TrimSpace(code) != "" && id in s.world.pairings
        && s.world.pairings[id].approved && !s.world.pairings[id].redeemed
        && CodeOf(hash, s.log, id, code) && ScopesWithin(scopes, s.world.pairings[id].scopes)
  {
    RunInv(hash, actions);
    var s := Run(hash, actions);
    if id in s.world.pairings {
      assert PairingOk(hash, s, id, s.world.pairings[id]);
      var b :| b in s.log && b.Began? && b.pairingId == id;
      assert hash(b.code) == s.world.pairings[id].codeHash;
    }
  }

  /** A redeemed pairing cannot be approved again, nor an unknown one. */
  lemma OnlyPendingApproved(hash: TextHash, actions: seq<Action>, id: string, stateOk: bool)
    requires var w := Run(hash, actions).world; id !in w.pairings || w.pairings[id].redeemed
    ensures Run(hash, actions + [Approve(id, stateOk)]) == Run(hash, actions)
  {
    assert (actions + [Approve(id, stateOk)])[..|actions|] == actions;
  }

  /** A call with another code changes nothing. */
  lemma WrongCodeRefused(hash: TextHash, actions: seq<Action>, a: Action)
    requires Digests(hash) && a.Redeem? && !CodeOf(hash, Run(hash, actions).log, a.id, a.code)
    ensures Run(hash, actions + [a]) == Run(hash, actions)
  {
    RedeemsIff(hash, actions, a.id, a.code, a.scopes);
    assert (actions + [a])[..|actions|] == actions;
  }

  /** A redemption that passes its checks and is written gives its token every scope it asked for. */
  lemma RedeemedAuthorizes(hash: TextHash, actions: seq<Action>, a: Action, x: string)
    requires a.Redeem? && a.stateOk && Enabled(Run(hash, actions), a)
    requires RedeemCheck(hash, Run(hash, actions).world, a.id, a.code, a.scopes).Ok?
    requires x in RedeemCheck(hash, Run(hash, actions).world, a.id, a.code, a.scopes).value
    ensures Authorizes(hash, Run(hash, actions + [a]).world, a.grantId, a.token, x)
  {
    assert (actions + [a])[..|actions|] == actions;
  }

  lemma BeginPairs(hash: TextHash, s: System, a: Action)
    requires a.Begin? && a.stateOk && Enabled(s, a) && BeginCheck(a.clientName, a.scopes).Ok?
    ensures var t := Step(hash, s, a);
      && a.id in t.world.pairings && t.used == s.used + {a.id}
      && t.world.pairings[a.id] ==
           NewPairing(hash, a.id, TrimSpace(a.clientName), BeginCheck(a.clientName, a.scopes).value, a.code)
  {}

  lemma ApproveApproves(hash: TextHash, s: System, id: string)
    requires id in s.world.pairings && !s.world.pairings[id].redeemed
    ensures var t := Step(hash, s, Approve(id, true));
      && id in t.world.pairings && t.used == s.used
      && t.world.pairings[id] == s.world.pairings[id].(approved := true)
  {}

  lemma ScopeIsTrimmed()
    ensures TrimSpace(SCOPE_RUNTIME_VAULT) == SCOPE_RUNTIME_VAULT
    ensures NormalizeScopes([SCOPE_RUNTIME_VAULT]) == Some([SCOPE_RUNTIME_VAULT])
  {
    var s := SCOPE_RUNTIME_VAULT;
    assert !IsSpace(s[0]) && !IsSpace(s[|s| - 1]);
  }

  /** From every reachable state: pair, approve and redeem with the generated code, and the token is accepted. */
  lemma PairingGrants(hash: TextHash, actions: seq<Action>, begin: Action, redeem: Action)
    requires begin.Begin? && begin.stateOk && TrimSpace(begin.clientName) != "" && TrimSpace(begin.code) != ""
    requires begin.scopes == [SCOPE_RUNTIME_VAULT] && begin.id !in Run(hash, actions).used
    requires redeem.Redeem? && redeem.stateOk && redeem.id == begin.id && redeem.code == begin.code
    requires redeem.scopes == begin.scopes && redeem.grantId !in Run(hash, actions).used + {begin.id}
    ensures var w := Run(hash, actions + [begin] + [Approve(begin.id, true)] + [redeem]).world;
      Authorizes(hash, w, redeem.grantId, redeem.token, SCOPE_RUNTIME_VAULT)
  {
    var one := actions + [begin];
    var two := one + [Approve(begin.id, true)];
    assert one[..|actions|] == actions && two[..|one|] == one;
    ScopeIsTrimmed();
    BeginPairs(hash, Run(hash, actions), begin);
    ApproveApproves(hash, Run(hash, one), begin.id);
    RedeemedAuthorizes(hash, two, redeem, SCOPE_RUNTIME_VAULT);
  }

  predicate DiskRevokes(s: System, k: string) {
    s.persisted.Some? && k in s.persisted.value.grants && s.persisted.value.grants[k].revoked
  }

  /** An accepted token stays accepted through a step exactly when the step neither revokes nor reloads a revocation. */
  lemma AuthorityStandsIff(hash: TextHash, actions: seq<Action>, a: Action, k: string, token: string, scope: string)
    requires Digests(hash) && Authorizes(hash, Run(hash, actions).world, k, token, scope)
    ensures Authorizes(hash, Run(hash, actions + [a]).world, k, token, scope) <==>
      a != Revoke(k, true) && !(a.Reload? && DiskRevokes(Run(hash, actions), k))
  {
    RunInv(hash, actions);
    assert (actions + [a])[..|actions|] == actions;
    AuthorityStep(hash, Run(hash, actions), a, k, token, scope);
  }

  lemma AuthorityStep(hash: TextHash, s: System, a: Action, k: string, token: string, scope: string)
    requires Inv(hash, s) && Authorizes(hash, s.world, k, token, scope)
    ensures Authorizes(hash, Step(hash, s, a).world, k, token, scope) <==>
      a != Revoke(k, true) && !(a.Reload? && DiskRevokes(s, k))
  {
    if a.Reload? {
      ReloadedGrant(hash, s, Reloaded(s.persisted), k);
    } else if a.Revoke? {
      RevokeAuthority(hash, s, a, k, token, scope);
    } else {
      KeysUsed(hash, s);
      OthersKeepGrant(hash, s, a, k);
    }
  }

  lemma RevokeAuthority(hash: TextHash, s: System, a: Action, k: string, token: string, scope: string)
    requires a.Revoke? && Authorizes(hash, s.world, k, token, scope)
    ensures Authorizes(hash, Step(hash, s, a).world, k, token, scope) <==> a != Revoke(k, true)
  {}

  lemma ReloadedGrant(hash: TextHash, s: System, d: World, k: string)
    requires InvWith(hash, s, d) && k in s.world.grants && d == Reloaded(s.persisted)
    ensures k in d.grants && s.world.grants[k] == d.grants[k].(revoked := s.world.grants[k].revoked)
    ensures d.grants[k].revoked <==> DiskRevokes(s, k)
  {
    assert GrantBehind(s.world.grants[k], d.grants[k]);
  }

  // ----- The manager -----

  /** Collect the trimmed scopes in a set and list it in order. */
  method CollectScopes(scopes: seq<string>) returns (result: Option<seq<string>>)
    ensures result == NormalizeScopes(scopes)
    ensures result.None? <==>
      scopes == [] || exists i | 0 <= i < |scopes| :: TrimSpace(scopes[i]) != SCOPE_RUNTIME_VAULT
    ensures result.Some? ==>
      && (set x | x in result.value) == (set x | x in scopes :: TrimSpace(x))
      && forall i, j | 0 <= i < j < |result.value| :: result.value[i] != result.value[j]
  {
    if |scopes| == 0 {
      return None;
    }
    var collected: set<string> := {};
    for index := 0 to |scopes|
      invariant collected == if index == 0 then {} else {SCOPE_RUNTIME_VAULT}
      invariant forall i | 0 <= i < index :: TrimSpace(scopes[i]) == SCOPE_RUNTIME_VAULT
    {
      var scope := TrimSpace(scopes[index]);
      if scope == "" || scope != SCOPE_RUNTIME_VAULT {
        assert scopes[index] in scopes;
        return None;
      }
      collected := collected + {scope};
    }
    assert TrimSpace(scopes[0]) == SCOPE_RUNTIME_VAULT && scopes[0] in scopes;
    var sorted: seq<string> := [];
    while collected != {}
      invariant collected == {} || (collected == {SCOPE_RUNTIME_VAULT} && sorted == [])
      invariant collected == {} ==> sorted == [SCOPE_RUNTIME_VAULT]
      decreases collected
    {
      var scope :| scope in collected;
      sorted := sorted + [scope];
      collected := collected - {scope};
    }
    return Some(sorted);
  }

  class SnapshotStore {
    var value: Option<Snapshot>

    constructor ()
      ensures value == None
    {
      value := None;
    }

    method Put(snapshot: Snapshot, succeeds: bool) returns (ok: bool)
      modifies this
      ensures ok == succeeds
      ensures value == if ok then Some(snapshot) else old(value)
    {
      ok := succeeds;
      if ok {
        value := Some(snapshot);
      }
    }
  }

  class Manager {
    const hash: TextHash
    const state: SnapshotStore
    var pairings: map<string, PairingState>
    var grants: map<string, GrantState>

    ghost function Value(): World
      reads this
    {
      World(pairings, grants)
    }

    constructor (hash: TextHash, state: SnapshotStore)
      ensures this.hash == hash && this.state == state && Value() == Reloaded(state.value)
    {
      this.hash, this.state := hash, state;
      if state.value.None? {
        pairings, grants := map[], map[];
      } else {
        var loaded := Load(state.value.value);
        pairings, grants := loaded.pairings, loaded.grants;
      }
    }

    method PersistLocked(succeeds: bool) returns (ok: bool)
      modifies state
      ensures ok == succeeds
      ensures state.value == if ok then Some(Save(Value())) else old(state.value)
    {
      ok := state.Put(Save(World(pairings, grants)), succeeds);
    }

    /** `id` and `code` are the generated identifier and code. */
    method BeginWithScopes(clientName: string, scopes: seq<string>, id: string, code: string, stateOk: bool)
      returns (result: Result<PairingState>)
      modifies this, state
      ensures var r := BeginCheck(clientName, scopes);
        if r.Err? then result == Err(r.failure) && Value() == old(Value()) && state.value == old(state.value)
        else
          var p := NewPairing(hash, id, TrimSpace(clientName), r.value, code);
          && result == (if stateOk then Ok(p.(code := code)) else Err(PersistFailed))
          && Value() == BeginWorld(old(Value()), p, stateOk)
          && state.value == if stateOk then Some(Save(Value())) else old(state.value)
    {
      var name := TrimSpace(clientName);
      if name == "" {
        return Err(ClientNameRequired);
      }
      var normalized := CollectScopes(scopes);
      if normalized.None? {
        return Err(InvalidScopes);
      }
      var pairing := PairingState(id, name, normalized.value, code, hash(code), false, false);
      pairings := pairings[id := pairing.(code := "")];
      var ok := PersistLocked(stateOk);
      if !ok {
        pairings := pairings - {id};
        return Err(PersistFailed);
      }
      return Ok(pairing);
    }

    method ApprovePairing(id: string, stateOk: bool) returns (result: Result<()>)
      modifies this, state
      ensures var r := ApproveCheck(old(Value()), id);
        if r.Err? then result == r && Value() == old(Value()) && state.value == old(state.value)
        else
          && result == (if stateOk then Ok(()) else Err(PersistFailed))
          && Value() == ApproveWorld(old(Value()), id, stateOk)
          && state.value == if stateOk then Some(Save(Value())) else old(state.value)
    {
      if id !in pairings {
        return Err(PairingNotFound);
      }
      var pairing := pairings[id];
      if pairing.redeemed {
        return Err(PairingRedeemed);
      }
      pairing := pairing.(approved := true);
      pairings := pairings[id := pairing];
      var ok := PersistLocked(stateOk);
      if !ok {
        pairing := pairing.(approved := false);
        pairings := pairings[id := pairing];
        return Err(PersistFailed);
      }
      return Ok(());
    }

    method CheckRedemption(id: string, code: string, scopes: seq<string>) returns (result: Result<seq<string>>)
      ensures result == RedeemCheck(hash, Value(), id, code, scopes)
    {
      if TrimSpace(code) == "" {
        return Err(InvalidPairingCode);
      }
      var normalized := CollectScopes(scopes);
      if normalized.None? {
        return Err(InvalidScopes);
      }
      if id !in pairings {
        return Err(PairingNotFound);
      }
      var pairing := pairings[id];
      if !pairing.approved {
        return Err(PairingNotApproved);
      }
      if pairing.redeemed {
        return Err(PairingRedeemed);
      }
      if hash(code) != pairing.codeHash {
        return Err(InvalidPairingCode);
      }
      if !ScopesWithin(scopes, pairing.scopes) {
        return Err(ScopeDenied);
      }
      return Ok(normalized.value);
    }

    /** `grantId` and `token` are the generated identifier and bearer token. */
    method RedeemWithScopes(id: string, code: string, scopes: seq<string>, grantId: string, token: string,
                            stateOk: bool)
      returns (result: Result<GrantState>)
      modifies this, state
      ensures var r := RedeemCheck(hash, old(Value()), id, code, scopes);
        if r.Err? then result == Err(r.failure) && Value() == old(Value()) && state.value == old(state.value)
        else
          var g := NewGrant(hash, grantId, old(pairings)[id].clientName, r.value, token);
          && result == (if stateOk then Ok(g.(token := token)) else Err(PersistFailed))
          && Value() == RedeemWorld(old(Value()), id, g, stateOk)
          && state.value == if stateOk then Some(Save(Value())) else old(state.value)
    {
      var allowed := CheckRedemption(id, code, scopes);
      if allowed.Err? {
        return Err(allowed.failure);
      }
      var pairing := pairings[id];
      var grant := GrantState(grantId, pairing.clientName, allowed.value, token, false, hash(token));
      grants := grants[grantId := grant.(token := "")];
      pairing := pairing.(redeemed := true, code := "");
      pairings := pairings[id := pairing];
      var ok := PersistLocked(stateOk);
      if !ok {
        grants := grants - {grantId};
        pairings := pairings[id := pairing.(redeemed := false)];
        return Err(PersistFailed);
      }
      return Ok(grant);
    }

    method RevokeGrant(id: string, stateOk: bool) returns (result: Result<()>)
      modifies this, state
      ensures
        if id !in old(grants) then
          result == Err(GrantNotFound) && Value() == old(Value()) && state.value == old(state.value)
        else
          && result == (if stateOk then Ok(()) else Err(PersistFailed))
          && Value() == RevokeWorld(old(Value()), id, stateOk)
          && state.value == if stateOk then Some(Save(Value())) else old(state.value)
    {
      if id !in grants {
        return Err(GrantNotFound);
      }
      var grant := grants[id].(revoked := true, token := "");
      grants := grants[id := grant];
      var ok := PersistLocked(stateOk);
      if !ok {
        grants := grants[id := grant.(revoked := false)];
        return Err(PersistFailed);
      }
      return Ok(());
    }

    /** The grants whose token hash is that of `token`. */
    ghost predicate Matches(k: string, token: string)
      reads this
    {
      k in grants && grants[k].tokenHash == hash(token)
    }

    /**
     The first matching grant in iteration order decides. When at most one grant matches, the
     answer is yes exactly when that grant authorizes the scope.
     */
    method Authorize(token: string, scope: string) returns (result: Result<GrantState>)
      ensures result.Ok? ==>
        exists k :: Authorizes(hash, Value(), k, token, scope) && result.value == grants[k].(token := "")
      ensures result == Err(GrantNotFound) <==> TrimSpace(token) == "" || forall k :: !Matches(k, token)
      ensures result.Err? ==> result.failure in {GrantNotFound, GrantRevoked, ScopeDenied}
      ensures result == Err(GrantRevoked) ==> exists k :: Matches(k, token) && grants[k].revoked
      ensures result == Err(ScopeDenied) ==>
        exists k :: Matches(k, token) && !grants[k].revoked && scope !in grants[k].scopes
      ensures TrimSpace(token) != "" && (forall j, k :: Matches(j, token) && Matches(k, token) ==> j == k) ==>
        (result.Ok? <==> exists k :: Authorizes(hash, Value(), k, token, scope))
    {
      if TrimSpace(token) == "" {
        return Err(GrantNotFound);
      }
      assert forall k :: Authorizes(hash, Value(), k, token, scope) ==> Matches(k, token);
      var tokenHash := hash(token);
      var rest := grants.Keys;
      while rest != {}
        invariant rest <= grants.Keys
        invariant forall k | k in grants && k !in rest :: grants[k].tokenHash != tokenHash
        decreases rest
      {
        var key :| key in rest;
        rest := rest - {key};
        var grant := grants[key];
        if grant.tokenHash == tokenHash {
          assert Matches(key, token);
          if grant.revoked {
            return Err(GrantRevoked);
          }
          if scope !in grant.scopes {
            return Err(ScopeDenied);
          }
          assert Authorizes(hash, Value(), key, token, scope);
          return Ok(grant.(token := ""));
        }
      }
      return Err(GrantNotFound);
    }
  }
}
