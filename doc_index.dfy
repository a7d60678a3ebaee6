/**
 * The knowledge-base document index: an ordered sequence of entries, kept in
 * insertion order, with lookup and removal by document id.
 */
module DocIndex {
  import opened Wrappers

  /** One ingested document, as recorded in the index. */
  datatype DocEntry = DocEntry(
    id: string,
    originalName: string,
    storedName: string,
    extension: string,
    size: nat,
    textLength: nat,
    uploadedAt: string)

  predicate HasId(index: seq<DocEntry>, id: string) {
    exists i :: 0 <= i < |index| && index[i].id == id
  }

  /** `k` is the position of the first entry with the id. */
  predicate FirstWithId(index: seq<DocEntry>, id: string, k: int) {
    0 <= k < |index| && index[k].id == id && forall j :: 0 <= j < k ==> index[j].id != id
  }

  /** No two entries share an id. */
  predicate UniqueIds(index: seq<DocEntry>) {
    forall i, j :: 0 <= i < j < |index| ==> index[i].id != index[j].id
  }

  /** `next((e for e in index if e["id"] == doc_id), None)`: the first entry with the id. */
  function Find(index: seq<DocEntry>, id: string): (r: Option<DocEntry>)
    ensures r.None? <==> !HasId(index, id)
    ensures r.Some? ==> exists k :: FirstWithId(index, id, k) && index[k] == r.value
  {
    if index == [] then None
    else if index[0].id == id then
      assert FirstWithId(index, id, 0);
      Some(index[0])
    else
      var r := Find(index[1..], id);
      FindSkipsHead(index, id, r);
      r
  }

  lemma FindSkipsHead(index: seq<DocEntry>, id: string, r: Option<DocEntry>)
    requires index != [] && index[0].id != id
    requires r.None? <==> !HasId(index[1..], id)
    requires r.Some? ==> exists k :: FirstWithId(index[1..], id, k) && index[1..][k] == r.value
    ensures r.None? <==> !HasId(index, id)
    ensures r.Some? ==> exists k :: FirstWithId(index, id, k) && index[k] == r.value
  {
    if r.Some? {
      var k :| FirstWithId(index[1..], id, k) && index[1..][k] == r.value;
      assert index[k + 1] == r.value;
      assert forall j :: 1 <= j < k + 1 ==> index[j].id == index[1..][j - 1].id;
      assert FirstWithId(index, id, k + 1);
    } else {
      assert forall i :: 1 <= i < |index| ==> index[i] == index[1..][i - 1];
    }
  }

  /** `[e for e in index if e["id"] != doc_id]`. */
  function RemoveId(index: seq<DocEntry>, id: string): seq<DocEntry> {
    if index == [] then []
    else (if index[0].id != id then [index[0]] else []) + RemoveId(index[1..], id)
  }

  /** Removal keeps exactly the entries with a different id. */
  lemma {:induction false} RemoveIdMembers(index: seq<DocEntry>, id: string)
    ensures forall e :: e in RemoveId(index, id) <==> e in index && e.id != id
  {
    if index != [] {
      RemoveIdMembers(index[1..], id);
      assert index == [index[0]] + index[1..];
    }
  }

  /** Removal works piecewise, so the surviving entries keep their order. */
  lemma {:induction false} RemoveIdConcat(a: seq<DocEntry>, b: seq<DocEntry>, id: string)
    ensures RemoveId(a + b, id) == RemoveId(a, id) + RemoveId(b, id)
  {
    if a == [] {
      assert a + b == b;
    } else {
      assert (a + b)[1..] == a[1..] + b;
      RemoveIdConcat(a[1..], b, id);
    }
  }

  /** Removing an id that is absent leaves the index as it was. */
  lemma {:induction false} RemoveAbsentId(index: seq<DocEntry>, id: string)
    requires !HasId(index, id)
    ensures RemoveId(index, id) == index
  {
    if index != [] {
      assert forall i :: 0 <= i < |index[1..]| ==> index[1..][i] == index[i + 1];
      RemoveAbsentId(index[1..], id);
      assert index == [index[0]] + index[1..];
    }
  }

  /** With unique ids, the id at position `k` occurs nowhere before or after it. */
  lemma UniqueIdElsewhereAbsent(index: seq<DocEntry>, k: nat)
    requires UniqueIds(index) && k < |index|
    ensures !HasId(index[..k], index[k].id) && !HasId(index[k + 1..], index[k].id)
  {
    var front, back := index[..k], index[k + 1..];
    assert forall i :: 0 <= i < |front| ==> front[i] == index[i];
    assert forall i :: 0 <= i < |back| ==> back[i] == index[k + 1 + i];
  }

  /** With unique ids, removal deletes exactly the one entry that carries the id. */
  lemma RemoveUniqueId(index: seq<DocEntry>, k: nat, id: string)
    requires UniqueIds(index) && k < |index| && index[k].id == id
    ensures RemoveId(index, id) == index[..k] + index[k + 1..]
  {
    var front, back := index[..k], index[k + 1..];
    UniqueIdElsewhereAbsent(index, k);
    RemoveSplit(front, index[k], back);
    assert index == front + [index[k]] + back;
  }

  lemma RemoveSplit(front: seq<DocEntry>, e: DocEntry, back: seq<DocEntry>)
    requires !HasId(front, e.id) && !HasId(back, e.id)
    ensures RemoveId(front + [e] + back, e.id) == front + back
  {
    var id := e.id;
    calc {
      RemoveId(front + [e] + back, id);
      { assert front + [e] + back == front + ([e] + back); }
      RemoveId(front + ([e] + back), id);
      { RemoveIdConcat(front, [e] + back, id); }
      RemoveId(front, id) + RemoveId([e] + back, id);
      { RemoveAbsentId(front, id); RemoveIdConcat([e], back, id); }
      front + (RemoveId([e], id) + RemoveId(back, id));
      { assert RemoveId([e], id) == []; RemoveAbsentId(back, id); }
      front + ([] + back);
      { assert [] + back == back; }
      front + back;
    }
  }

  /** Appending an entry whose id is new keeps the ids unique. */
  lemma AppendFreshId(index: seq<DocEntry>, e: DocEntry)
    requires UniqueIds(index) && !HasId(index, e.id)
    ensures UniqueIds(index + [e])
  {
  }
}
