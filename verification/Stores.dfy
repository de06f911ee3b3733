/** The findings table behind both stores: store/store.go, store/memory.go and store/sqlite.go. */
module Stores {
  import opened Core
  import opened Seqs

  datatype Record = Record(finding: Finding, absentStreak: int)

  /** Records are unique per module and fingerprint. */
  datatype RecordKey = RecordKey(moduleId: string, fingerprint: string)

  type Rows = map<RecordKey, Record>

  function KeyOf(r: Record): RecordKey {
    RecordKey(r.finding.moduleId, r.finding.fingerprint)
  }

  ghost predicate WellKeyed(rows: Rows) {
    forall k :: k in rows ==> KeyOf(rows[k]) == k
  }

  datatype Backend = Memory | Sqlite

  /** What the conflict clause leaves in place when it updates a row. */
  function Overlay(row: Record, r: Record): Record {
    r.(finding := r.finding.(id := row.finding.id, target := row.finding.target,
                             check := row.finding.check, firstSeen := row.finding.firstSeen))
  }

  predicate IdTaken(rows: Rows, id: string) {
    exists k :: k in rows && rows[k].finding.id == id
  }

  /** One upsert. Memory replaces the whole record. SQLite rewrites the mutable columns of an
      existing row, and refuses a new row whose primary key is in use. */
  function Upserted(backend: Backend, rows: Rows, r: Record): Option<Rows> {
    var k := KeyOf(r);
    match backend
    case Memory => Some(rows[k := r])
    case Sqlite =>
      if k in rows then Some(rows[k := Overlay(rows[k], r)])
      else if IdTaken(rows, r.finding.id) then None
      else Some(rows[k := r])
  }

  /** Upserts in order, abandoned at the first refusal. */
  function Applied(backend: Backend, rows: Rows, writes: seq<Record>): Option<Rows> {
    if writes == [] then Some(rows)
    else
      match Applied(backend, rows, writes[..|writes| - 1])
      case None => None
      case Some(mid) => Upserted(backend, mid, writes[|writes| - 1])
  }

  lemma {:induction false} AppliedConcat(backend: Backend, rows: Rows, ws: seq<Record>, xs: seq<Record>)
    ensures Applied(backend, rows, ws + xs)
         == match Applied(backend, rows, ws)
            case None => None
            case Some(mid) => Applied(backend, mid, xs)
  {
    if xs == [] {
      assert ws + xs == ws;
    } else {
      assert (ws + xs)[..|ws + xs| - 1] == ws + xs[..|xs| - 1];
      AppliedConcat(backend, rows, ws, xs[..|xs| - 1]);
    }
  }

  /** A run of upserts that stopped at a refusal, with everything before it applied. */
  ghost predicate StoppedAt(backend: Backend, rows: Rows, writes: seq<Record>, mid: Rows, n: nat) {
    && n < |writes|
    && Applied(backend, rows, writes[..n]) == Some(mid)
    && Upserted(backend, mid, writes[n]).None?
  }

  ghost predicate Stopped(backend: Backend, rows: Rows, writes: seq<Record>, mid: Rows) {
    exists n: nat :: StoppedAt(backend, rows, writes, mid, n)
  }

  lemma StoppedInside(backend: Backend, rows: Rows, ws: seq<Record>, w: Record, rest: seq<Record>, mid: Rows)
    requires Applied(backend, rows, ws) == Some(mid) && Upserted(backend, mid, w).None?
    ensures Stopped(backend, rows, ws + [w] + rest, mid)
    ensures Applied(backend, rows, ws + [w] + rest).None?
  {
    var all := ws + [w] + rest;
    assert all[..|ws|] == ws && all[|ws|] == w;
    assert StoppedAt(backend, rows, all, mid, |ws|);
    assert (ws + [w])[..|ws|] == ws;
    AppliedConcat(backend, rows, ws + [w], rest);
  }

  lemma StoppedEarlier(backend: Backend, rows: Rows, ws: seq<Record>, xs: seq<Record>, mid: Rows)
    requires Stopped(backend, rows, ws, mid)
    ensures Stopped(backend, rows, ws + xs, mid)
  {
    var n: nat :| StoppedAt(backend, rows, ws, mid, n);
    assert (ws + xs)[..n] == ws[..n];
    assert StoppedAt(backend, rows, ws + xs, mid, n);
  }

  lemma StoppedLater(backend: Backend, rows: Rows, ws: seq<Record>, xs: seq<Record>, start: Rows, mid: Rows)
    requires Applied(backend, rows, ws) == Some(start) && Stopped(backend, start, xs, mid)
    ensures Stopped(backend, rows, ws + xs, mid)
  {
    var n: nat :| StoppedAt(backend, start, xs, mid, n);
    AppliedConcat(backend, rows, ws, xs[..n]);
    assert (ws + xs)[..|ws| + n] == ws + xs[..n];
    assert StoppedAt(backend, rows, ws + xs, mid, |ws| + n);
  }

  /** Exactly the records of one module and target, each once, in any order. */
  ghost predicate IsListing(rows: Rows, moduleId: string, target: string, out: seq<Record>) {
    && (forall r :: r in out ==> KeyOf(r) in rows && rows[KeyOf(r)] == r)
    && (forall k :: k in rows ==>
          (rows[k] in out <==> rows[k].finding.moduleId == moduleId && rows[k].finding.target == target))
    && (forall i, j :: 0 <= i < j < |out| ==> KeyOf(out[i]) != KeyOf(out[j]))
  }

  /** MemStore joins the two key parts with a NUL; that loses nothing while module ids hold none. */
  function MemKey(moduleId: string, fingerprint: string): string {
    moduleId + ['\0'] + fingerprint
  }

  lemma MemKeyInjective(m: string, f: string, m': string, f': string)
    requires '\0' !in m && '\0' !in m'
    ensures MemKey(m, f) == MemKey(m', f') <==> m == m' && f == f'
  {
    JoinInjective('\0', m, f, m', f');
  }

  class Store {
    const backend: Backend
    var rows: Rows

    constructor (backend: Backend)
      ensures this.backend == backend && rows == map[] && WellKeyed(rows)
    {
      this.backend := backend;
      rows := map[];
    }

    method ListByTarget(moduleId: string, target: string) returns (out: seq<Record>)
      requires WellKeyed(rows)
      ensures IsListing(rows, moduleId, target, out)
    {
      out := [];
      var todo := rows.Keys;
      while todo != {}
        invariant todo <= rows.Keys
        invariant forall r :: r in out ==> KeyOf(r) in rows && rows[KeyOf(r)] == r && KeyOf(r) !in todo
        invariant forall k :: k in rows && k !in todo ==>
                    (rows[k] in out <==> rows[k].finding.moduleId == moduleId && rows[k].finding.target == target)
        invariant forall i, j :: 0 <= i < j < |out| ==> KeyOf(out[i]) != KeyOf(out[j])
        decreases todo
      {
        var k :| k in todo;
        todo := todo - {k};
        var r := rows[k];
        if r.finding.moduleId == moduleId && r.finding.target == target {
          out := out + [r];
        }
      }
    }

    method Upsert(r: Record) returns (ok: bool)
      modifies this
      ensures ok == Upserted(backend, old(rows), r).Some?
      ensures rows == if ok then Upserted(backend, old(rows), r).value else old(rows)
      ensures old(WellKeyed(rows)) ==> WellKeyed(rows)
    {
      var u := Upserted(backend, rows, r);
      ok := u.Some?;
      if ok { rows := u.value; }
    }

    method Get(moduleId: string, fingerprint: string) returns (r: Option<Record>)
      ensures var k := RecordKey(moduleId, fingerprint);
              r == if k in rows then Some(rows[k]) else None
    {
      var k := RecordKey(moduleId, fingerprint);
      r := if k in rows then Some(rows[k]) else None;
    }
  }

  // ----- SQLite never rewrites an identity -----

  /** Whatever is upserted, a row SQLite holds keeps its id, target, check and first sighting. */
  lemma {:induction false} SqliteKeepsIdentity(rows: Rows, ws: seq<Record>, k: RecordKey)
    requires k in rows && Applied(Sqlite, rows, ws).Some?
    ensures var after := Applied(Sqlite, rows, ws).value;
            k in after && SameIdentity(rows[k], after[k])
  {
    if ws == [] {
    } else {
      SqliteKeepsIdentity(rows, ws[..|ws| - 1], k);
    }
  }

  // ----- both stores agree on identity-preserving writes -----

  predicate SameIdentity(a: Record, b: Record) {
    a.finding.id == b.finding.id && a.finding.target == b.finding.target
    && a.finding.check == b.finding.check && a.finding.firstSeen == b.finding.firstSeen
  }

  ghost predicate DistinctKeys(ws: seq<Record>) {
    forall i, j :: 0 <= i < j < |ws| ==> KeyOf(ws[i]) != KeyOf(ws[j])
  }

  ghost predicate KeepsIdentity(rows: Rows, ws: seq<Record>) {
    forall i :: 0 <= i < |ws| && KeyOf(ws[i]) in rows ==> SameIdentity(rows[KeyOf(ws[i])], ws[i])
  }

  /** No new record carries an id that is stored already or carried by another new record. */
  ghost predicate FreshIds(rows: Rows, ws: seq<Record>) {
    && (forall i :: 0 <= i < |ws| && KeyOf(ws[i]) !in rows ==> !IdTaken(rows, ws[i].finding.id))
    && (forall i, j :: 0 <= i < j < |ws| && KeyOf(ws[i]) !in rows && KeyOf(ws[j]) !in rows
          ==> ws[i].finding.id != ws[j].finding.id)
  }

  /** `rows` with every write in place: what a whole-record replace of distinct keys yields. */
  ghost predicate Overwrites(rows: Rows, ws: seq<Record>, after: Rows) {
    && (forall i :: 0 <= i < |ws| ==> KeyOf(ws[i]) in after && after[KeyOf(ws[i])] == ws[i])
    && (forall k :: k in rows ==> k in after)
    && (forall k :: k in after ==>
          || (exists i :: 0 <= i < |ws| && KeyOf(ws[i]) == k)
          || (k in rows && after[k] == rows[k]))
  }

  lemma OverwriteOneMore(rows: Rows, ws: seq<Record>, mid: Rows)
    requires |ws| > 0 && DistinctKeys(ws) && Overwrites(rows, ws[..|ws| - 1], mid)
    ensures var w := ws[|ws| - 1];
      && Overwrites(rows, ws, mid[KeyOf(w) := w])
      && (KeyOf(w) in mid <==> KeyOf(w) in rows)
      && (KeyOf(w) in rows ==> mid[KeyOf(w)] == rows[KeyOf(w)])
  {
    var n := |ws| - 1;
    var init, w := ws[..n], ws[n];
    var k := KeyOf(w);
    var after := mid[k := w];
    forall j | j in after
      ensures (exists i :: 0 <= i < |ws| && KeyOf(ws[i]) == j) || (j in rows && after[j] == rows[j])
    {
      if j == k {
        assert KeyOf(ws[n]) == j;
      } else if i :| 0 <= i < |init| && KeyOf(init[i]) == j {
        assert KeyOf(ws[i]) == j;
      }
    }
  }

  /** With distinct keys and kept identities, both stores perform the same overwrite; SQLite
      refuses exactly when an id is reused. */
  lemma {:induction false} AppliedOverwrites(backend: Backend, rows: Rows, ws: seq<Record>)
    requires DistinctKeys(ws) && KeepsIdentity(rows, ws)
    ensures Applied(backend, rows, ws).Some? <==> backend == Memory || FreshIds(rows, ws)
    ensures Applied(backend, rows, ws).Some? ==> Overwrites(rows, ws, Applied(backend, rows, ws).value)
  {
    if ws == [] {
    } else {
      var init, w := ws[..|ws| - 1], ws[|ws| - 1];
      assert DistinctKeys(init) && KeepsIdentity(rows, init);
      assert FreshIds(rows, ws) ==> FreshIds(rows, init);
      AppliedOverwrites(backend, rows, init);
      if Applied(backend, rows, init).Some? {
        var mid := Applied(backend, rows, init).value;
        OverwriteOneMore(rows, ws, mid);
        if KeyOf(w) in rows {
          OverlayKeepsIdentical(rows[KeyOf(w)], w);
          FreshUnlessNew(rows, ws);
        } else if backend == Sqlite {
          FreshAgainstPrefix(rows, ws, mid);
        }
      }
    }
  }

  lemma OverlayKeepsIdentical(row: Record, r: Record)
    requires SameIdentity(row, r)
    ensures Overlay(row, r) == r
  {
  }

  lemma FreshUnlessNew(rows: Rows, ws: seq<Record>)
    requires |ws| > 0 && KeyOf(ws[|ws| - 1]) in rows
    ensures FreshIds(rows, ws) <==> FreshIds(rows, ws[..|ws| - 1])
  {
    var init := ws[..|ws| - 1];
    assert forall i :: 0 <= i < |init| ==> init[i] == ws[i];
  }

  /** The last write's id is unused after the others exactly when it was fresh to begin with. */
  lemma FreshAgainstPrefix(rows: Rows, ws: seq<Record>, mid: Rows)
    requires |ws| > 0 && DistinctKeys(ws) && KeepsIdentity(rows, ws)
    requires KeyOf(ws[|ws| - 1]) !in rows
    requires FreshIds(rows, ws[..|ws| - 1]) && Overwrites(rows, ws[..|ws| - 1], mid)
    ensures IdTaken(mid, ws[|ws| - 1].finding.id) <==> !FreshIds(rows, ws)
  {
    var n := |ws| - 1;
    var init, w := ws[..n], ws[n];
    if IdTaken(mid, w.finding.id) {
      var k :| k in mid && mid[k].finding.id == w.finding.id;
      if i :| 0 <= i < |init| && KeyOf(init[i]) == k {
        assert init[i] == ws[i] == mid[k];
        if k in rows {
          assert rows[k].finding.id == w.finding.id;
        }
      }
    } else {
      forall i | 0 <= i < |ws| && KeyOf(ws[i]) !in rows ensures !IdTaken(rows, ws[i].finding.id) {
        if i < n {
          assert ws[i] == init[i];
        } else {
          KeptIdsStay(rows, ws, mid, w.finding.id);
        }
      }
      forall i, j | 0 <= i < j < |ws| && KeyOf(ws[i]) !in rows && KeyOf(ws[j]) !in rows
        ensures ws[i].finding.id != ws[j].finding.id
      {
        assert ws[i] == init[i];
        if j < n {
          assert ws[j] == init[j];
        } else {
          assert mid[KeyOf(init[i])] == init[i];
        }
      }
    }
  }

  lemma KeptIdsStay(rows: Rows, ws: seq<Record>, mid: Rows, id: string)
    requires |ws| > 0 && KeepsIdentity(rows, ws) && Overwrites(rows, ws[..|ws| - 1], mid)
    requires !IdTaken(mid, id)
    ensures !IdTaken(rows, id)
  {
    var init := ws[..|ws| - 1];
    forall k | k in rows ensures rows[k].finding.id != id {
      assert k in mid;
      if i :| 0 <= i < |init| && KeyOf(init[i]) == k {
        assert init[i] == ws[i] == mid[k];
      }
    }
  }
}
