/**
 * The PKI repository: the walk down the management tree, the hash indexes and compromise marks
 * (internal/app/porttest/pki.go).
 */
module PkiStore {
  import opened Outcomes
  import opened Ordering

  /** A stored authority; roots have the empty parent. */
  datatype Authority = Authority(id: string, parent: string, name: string)

  predicate AuthorityLe(a: Authority, b: Authority) { StringLe(a.id, b.id) }

  lemma AuthorityOrder()
    ensures TotalPreorder(AuthorityLe)
  {
    StringOrder();
    forall x: Authority, y: Authority, z: Authority | AuthorityLe(x, y) && AuthorityLe(y, z) ensures AuthorityLe(x, z) {
      StringTransitive(x.id, y.id, z.id);
    }
    forall x: Authority, y: Authority ensures AuthorityLe(x, y) || AuthorityLe(y, x) { StringTotal(x.id, y.id); }
  }

  /** Going up `steps` parent links from a stored authority arrives at `start`. */
  predicate ReachesIn(rows: map<string, Authority>, id: string, start: string, steps: nat)
    decreases steps
  {
    id in rows && steps > 0 && if steps == 1 then rows[id].parent == start
        else ReachesIn(rows, rows[id].parent, start, steps - 1)
  }

  ghost predicate Reaches(rows: map<string, Authority>, id: string, start: string) {
    exists steps: nat :: ReachesIn(rows, id, start, steps)
  }

  ghost predicate RowsById(rows: map<string, Authority>) { forall id | id in rows :: rows[id].id == id }

  /** Every authority other than the start that reaches it, once, by id. */
  ghost predicate IsDescendantList(list: seq<Authority>, rows: map<string, Authority>, start: string) {
    && SortedBy(AuthorityLe, list) && Distinct(list)
    && (forall a | a in list :: a.id in rows && rows[a.id] == a && a.id != start && Reaches(rows, a.id, start))
    && (forall id | id in rows && id != start && Reaches(rows, id, start) :: rows[id] in list)
  }

  function IdsOf(list: seq<Authority>): set<string> { set a | a in list :: a.id }

  /** Found so far: `seen` is the start and the ids listed, and each of them reaches the start. */
  ghost predicate Found(rows: map<string, Authority>, start: string, out: seq<Authority>, seen: set<string>) {
    && Distinct(out)
    && (forall a | a in out :: a.id in rows && rows[a.id] == a && a.id != start && Reaches(rows, a.id, start))
    && seen == {start} + IdsOf(out)
  }

  /** The children of every seen authority that has left the frontier are seen too. */
  ghost predicate Closed(rows: map<string, Authority>, seen: set<string>, open: set<string>) {
    forall id | id in rows && rows[id].parent in seen && rows[id].parent !in open :: id in seen
  }

  lemma {:induction false} ClosedReaches(rows: map<string, Authority>, start: string, seen: set<string>, id: string,
      steps: nat)
    requires start in seen && Closed(rows, seen, {}) && ReachesIn(rows, id, start, steps)
    ensures id in seen
    decreases steps
  {
    if steps > 1 {
      ClosedReaches(rows, start, seen, rows[id].parent, steps - 1);
    }
  }

  lemma ReachesMore(rows: map<string, Authority>, id: string, start: string)
    requires id in rows && (rows[id].parent == start || Reaches(rows, rows[id].parent, start))
    ensures Reaches(rows, id, start)
  {
    if rows[id].parent == start {
      assert ReachesIn(rows, id, start, 1);
    } else {
      var steps: nat :| ReachesIn(rows, rows[id].parent, start, steps);
      assert ReachesIn(rows, id, start, steps + 1);
    }
  }

  /** One more child found. */
  lemma FoundMore(rows: map<string, Authority>, start: string, out: seq<Authority>, seen: set<string>, a: Authority)
    requires RowsById(rows) && Found(rows, start, out, seen)
    requires a.id in rows && rows[a.id] == a && a.id !in seen && a.parent in seen
    ensures Found(rows, start, out + [a], seen + {a.id})
  {
    ParentReaches(rows, start, out, seen, a);
    assert a in out ==> a.id in IdsOf(out);
    assert IdsOf(out + [a]) == IdsOf(out) + {a.id};
  }

  lemma ParentReaches(rows: map<string, Authority>, start: string, out: seq<Authority>, seen: set<string>, a: Authority)
    requires Found(rows, start, out, seen) && a.id in rows && rows[a.id] == a && a.parent in seen
    ensures Reaches(rows, a.id, start)
  {
    if a.parent != start {
      var p :| p in out && p.id == a.parent;
    }
    ReachesMore(rows, a.id, start);
  }

  lemma Complete(rows: map<string, Authority>, start: string, out: seq<Authority>, seen: set<string>)
    requires RowsById(rows) && Found(rows, start, out, seen) && Closed(rows, seen, {})
    ensures forall id | id in rows && id != start && Reaches(rows, id, start) :: rows[id] in out
  {
    forall id | id in rows && id != start && Reaches(rows, id, start) ensures rows[id] in out {
      var steps: nat :| ReachesIn(rows, id, start, steps);
      ClosedReaches(rows, start, seen, id, steps);
      var a :| a in out && a.id == id;
    }
  }

  datatype KeyMaterial = KeyMaterial(id: string, spki: string, compromisedAt: Instant)

  datatype Certificate = Certificate(id: string, der: string)

  /** An index from a hash to the id of the one row that has it. */
  ghost predicate IndexAgrees<R>(rows: map<string, R>, index: map<string, string>, idOf: R -> string,
      hashOf: R -> string) {
    && (forall id | id in rows :: idOf(rows[id]) == id)
    && (forall hash | hash in index :: index[hash] in rows && hashOf(rows[index[hash]]) == hash)
    && (forall id | id in rows :: hashOf(rows[id]) in index && index[hashOf(rows[id])] == id)
  }

  lemma IndexInsert<R>(rows: map<string, R>, index: map<string, string>, idOf: R -> string, hashOf: R -> string, row: R)
    requires IndexAgrees(rows, index, idOf, hashOf) && idOf(row) !in rows && hashOf(row) !in index
    ensures IndexAgrees(rows[idOf(row) := row], index[hashOf(row) := idOf(row)], idOf, hashOf)
  {
  }

  function KeyId(m: KeyMaterial): string { m.id }

  function CertificateId(c: Certificate): string { c.id }

  /** Marking a key compromised keeps the earliest report; 0 is "not reported". */
  function Mark(compromisedAt: Instant, report: Instant): Instant {
    if compromisedAt == 0 || report < compromisedAt then report else compromisedAt
  }

  function MarkAll(compromisedAt: Instant, reports: seq<Instant>): Instant {
    if reports == [] then compromisedAt
        else Mark(MarkAll(compromisedAt, reports[..|reports| - 1]), reports[|reports| - 1])
  }

  /** However reports arrive and repeat, the mark is the earliest of them. */
  lemma {:induction false} EarliestReportKept(reports: seq<Instant>)
    requires reports != [] && 0 !in reports
    ensures MarkAll(0, reports) in reports && forall r | r in reports :: MarkAll(0, reports) <= r
  {
    var m := |reports| - 1;
    var before := reports[..m];
    assert reports == before + [reports[m]] && reports[m] in reports;
    if before == [] {
      assert MarkAll(0, before) == 0;
    } else {
      EarliestReportKept(before);
      assert MarkAll(0, before) in reports;
    }
  }

  /** A mark once set is withdrawn by exactly one kind of report: the unset instant, against a later mark. */
  lemma {:induction false} MarkWithdrawnExactly(compromisedAt: Instant, reports: seq<Instant>, k: nat)
    requires k < |reports| && MarkAll(compromisedAt, reports[..k]) != 0
    ensures MarkAll(compromisedAt, reports[..k + 1]) == 0 <==>
              reports[k] == 0 && MarkAll(compromisedAt, reports[..k]) > 0
  {
    assert reports[..k + 1][..k] == reports[..k];
  }

  /** A report at the unset instant, after one at 5, leaves the key unmarked. */
  lemma MarkWithdrawnExample()
    ensures MarkAll(0, [5]) == 5 && MarkAll(0, [5, 0]) == 0
  {
    assert [5, 0][..1] == [5];
  }

  class PkiRepository {
    var authorities: map<string, Authority>
    var keyMaterials: map<string, KeyMaterial>
    var keyMaterialsBySpki: map<string, string>
    var certificates: map<string, Certificate>
    var certificatesByDer: map<string, string>
    const spkiHash: string -> string
    const derHash: string -> string

    ghost predicate Valid()
      reads this
    {
      && RowsById(authorities)
      && IndexAgrees(keyMaterials, keyMaterialsBySpki, KeyId, KeyHash(spkiHash))
      && IndexAgrees(certificates, certificatesByDer, CertificateId, CertificateHash(derHash))
    }

    constructor (spkiHash: string -> string, derHash: string -> string)
      ensures Valid() && authorities == map[] && keyMaterials == map[] && certificates == map[]
      ensures this.spkiHash == spkiHash && this.derHash == derHash
    {
      authorities := map[];
      keyMaterials, keyMaterialsBySpki := map[], map[];
      certificates, certificatesByDer := map[], map[];
      this.spkiHash, this.derHash := spkiHash, derHash;
    }

    /** Breadth first from the start; it ends on any stored graph, cycles included. */
    method ListAffectedDescendants(authorityId: string) returns (list: seq<Authority>)
      requires Valid()
      ensures IsDescendantList(list, authorities, authorityId)
    {
      hide Found, Closed, Reaches, IndexAgrees, IsDescendantList;
      var out: seq<Authority> := [];
      var frontier := [authorityId];
      var seen := {authorityId};
      ghost var universe := authorities.Keys + {authorityId};
      FoundStart(authorities, authorityId);
      while frontier != []
        invariant Found(authorities, authorityId, out, seen) && seen <= universe
        invariant forall id | id in frontier :: id in seen
        invariant Closed(authorities, seen, SetOf(frontier))
        decreases universe - seen, |frontier|
      {
        var parent := frontier[0];
        ghost var before := seen;
        ghost var rest := frontier[1..];
        assert frontier == [parent] + rest;
        frontier := frontier[1..];
        var left := authorities.Keys;
        ClosedStart(authorities, seen, parent, rest);
        while left != {}
          invariant left <= authorities.Keys
          invariant Found(authorities, authorityId, out, seen) && before <= seen <= universe
          invariant seen == before ==> frontier == rest
          invariant parent in seen && forall id | id in frontier :: id in seen
          invariant ClosedBut(authorities, seen, SetOf(frontier), parent, left)
          decreases left
        {
          var id :| id in left;
          ClosedLess(authorities, seen, SetOf(frontier), parent, left, id);
          left := left - {id};
          var a := authorities[id];
          if a.parent != parent || a.id in seen { continue; }
          FoundMore(authorities, authorityId, out, seen, a);
          ClosedMore(authorities, seen, frontier, parent, left, a.id);
          seen := seen + {a.id};
          out := out + [a];
          frontier := frontier + [a.id];
        }
        ClosedEnd(authorities, seen, SetOf(frontier), parent);
      }
      ClosedNone(authorities, seen, frontier);
      Complete(authorities, authorityId, out, seen);
      list := Sort(out, AuthorityLe);
      SortedListing(out, authorities, authorityId, seen);
    }

    method InsertKeyMaterial(m: KeyMaterial) returns (r: Result<()>)
      requires Valid()
      modifies this`keyMaterials, this`keyMaterialsBySpki
      ensures Valid()
      ensures r.Ok? <==> m.id !in old(keyMaterials) && forall id | id in old(keyMaterials) ::
                spkiHash(old(keyMaterials)[id].spki) != spkiHash(m.spki)
      ensures r.Err? ==> r.error == Duplicate
      ensures keyMaterials == if r.Ok? then old(keyMaterials)[m.id := m] else old(keyMaterials)
    {
      if m.id in keyMaterials { return Err(Duplicate); }
      var hash := spkiHash(m.spki);
      if hash in keyMaterialsBySpki { return Err(Duplicate); }
      IndexInsert(keyMaterials, keyMaterialsBySpki, KeyId, KeyHash(spkiHash), m);
      keyMaterials := keyMaterials[m.id := m];
      keyMaterialsBySpki := keyMaterialsBySpki[hash := m.id];
      return Ok(());
    }

    /** The index finds what a scan for the hash would, and there is only one. */
    method FindKeyBySpki(hash: string) returns (r: Result<KeyMaterial>)
      requires Valid()
      ensures r.Err? ==> r.error == NotFound
      ensures r.Ok? <==> exists id :: id in keyMaterials && spkiHash(keyMaterials[id].spki) == hash
      ensures r.Ok? ==> forall id | id in keyMaterials :: spkiHash(keyMaterials[id].spki) == hash <==>
                keyMaterials[id] == r.value
    {
      if hash !in keyMaterialsBySpki { return Err(NotFound); }
      return Ok(keyMaterials[keyMaterialsBySpki[hash]]);
    }

    method InsertCertificate(c: Certificate) returns (r: Result<()>)
      requires Valid()
      modifies this`certificates, this`certificatesByDer
      ensures Valid()
      ensures r.Ok? <==> c.id !in old(certificates) && forall id | id in old(certificates) ::
                derHash(old(certificates)[id].der) != derHash(c.der)
      ensures r.Err? ==> r.error == Duplicate
      ensures certificates == if r.Ok? then old(certificates)[c.id := c] else old(certificates)
    {
      if c.id in certificates { return Err(Duplicate); }
      var hash := derHash(c.der);
      if hash in certificatesByDer { return Err(Duplicate); }
      IndexInsert(certificates, certificatesByDer, CertificateId, CertificateHash(derHash), c);
      certificates := certificates[c.id := c];
      certificatesByDer := certificatesByDer[hash := c.id];
      return Ok(());
    }

    method FindCertificateByDer(hash: string) returns (r: Result<Certificate>)
      requires Valid()
      ensures r.Err? ==> r.error == NotFound
      ensures r.Ok? <==> exists id :: id in certificates && derHash(certificates[id].der) == hash
      ensures r.Ok? ==> forall id | id in certificates :: derHash(certificates[id].der) == hash <==>
                certificates[id] == r.value
    {
      if hash !in certificatesByDer { return Err(NotFound); }
      return Ok(certificates[certificatesByDer[hash]]);
    }

    method MarkCompromised(id: string, compromisedAt: Instant) returns (r: Result<()>)
      requires Valid()
      modifies this`keyMaterials
      ensures Valid()
      ensures r == if id in old(keyMaterials) then Ok(()) else Err(NotFound)
      ensures r.Err? ==> keyMaterials == old(keyMaterials)
      ensures r.Ok? ==>
                var m := old(keyMaterials)[id];
                keyMaterials == old(keyMaterials)[id := m.(compromisedAt := Mark(m.compromisedAt, compromisedAt))]
    {
      if id !in keyMaterials { return Err(NotFound); }
      var m := keyMaterials[id];
      if m.compromisedAt == 0 || compromisedAt < m.compromisedAt {
        m := m.(compromisedAt := compromisedAt);
        keyMaterials := keyMaterials[id := m];
      }
      return Ok(());
    }
  }

  function KeyHash(h: string -> string): KeyMaterial -> string { (m: KeyMaterial) => h(m.spki) }

  function CertificateHash(h: string -> string): Certificate -> string { (c: Certificate) => h(c.der) }

  // ---- steps of the walk ----

  ghost function SetOf(frontier: seq<string>): set<string> { set id | id in frontier }

  lemma FoundStart(rows: map<string, Authority>, start: string)
    ensures Found(rows, start, [], {start}) && Closed(rows, {start}, SetOf([start]))
  {
    assert start in [start];
  }

  /** Closed but for the children of `parent` still to be looked at. */
  ghost predicate ClosedBut(rows: map<string, Authority>, seen: set<string>, open: set<string>, parent: string,
      left: set<string>) {
    forall id | id in rows && rows[id].parent in seen && rows[id].parent !in open &&
        !(rows[id].parent == parent && id in left) :: id in seen
  }

  lemma ClosedStart(rows: map<string, Authority>, seen: set<string>, parent: string, rest: seq<string>)
    requires Closed(rows, seen, SetOf([parent] + rest))
    ensures ClosedBut(rows, seen, SetOf(rest), parent, rows.Keys)
  {
    assert forall id :: id in [parent] + rest <==> id == parent || id in rest;
  }

  lemma ClosedLess(rows: map<string, Authority>, seen: set<string>, open: set<string>, parent: string,
      left: set<string>, id: string)
    requires ClosedBut(rows, seen, open, parent, left) && id in left
    ensures id in rows && (rows[id].parent != parent || id in seen) ==> ClosedBut(rows, seen, open, parent, left - {id})
  {
  }

  lemma ClosedMore(rows: map<string, Authority>, seen: set<string>, frontier: seq<string>, parent: string,
      left: set<string>, id: string)
    requires ClosedBut(rows, seen, SetOf(frontier), parent, left + {id})
    ensures ClosedBut(rows, seen + {id}, SetOf(frontier + [id]), parent, left)
  {
    assert forall x :: x in frontier + [id] <==> x in frontier || x == id;
  }

  lemma ClosedEnd(rows: map<string, Authority>, seen: set<string>, open: set<string>, parent: string)
    requires ClosedBut(rows, seen, open, parent, {})
    ensures Closed(rows, seen, open)
  {
  }

  lemma ClosedNone(rows: map<string, Authority>, seen: set<string>, frontier: seq<string>)
    requires Closed(rows, seen, SetOf(frontier)) && frontier == []
    ensures Closed(rows, seen, {})
  {
  }

  lemma SortedListing(out: seq<Authority>, rows: map<string, Authority>, start: string, seen: set<string>)
    requires Found(rows, start, out, seen)
    requires forall id | id in rows && id != start && Reaches(rows, id, start) :: rows[id] in out
    ensures IsDescendantList(Sort(out, AuthorityLe), rows, start)
  {
    hide Reaches;
    AuthorityOrder();
    SortSorted(out, AuthorityLe);
    SortDistinct(out, AuthorityLe);
    SameMembers(out, Sort(out, AuthorityLe));
  }
}
