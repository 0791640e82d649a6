/**
 * The bulk delete of the admin danger zone: emptying a collection batch by
 * batch, emptying the subcollections of a document, and the action that,
 * behind a shared secret, wipes the users, the classrooms, or both.
 *
 * The database is a map from collection paths (collection id, document id,
 * collection id, ...) to the ids of the documents in that collection, in the
 * order a query returns them. Deleting a document does not delete its
 * subcollections, as in the real store.
 */
module DeleteActions {

  type Path = seq<string>

  const AdminSecret: string := "Iamtheonlyadminonearth"
  const ListUsersPageSize: nat := 1000
  const BatchSize: nat := 100
  const UsersCollection: Path := ["users"]
  const ClassroomsCollection: Path := ["classrooms"]

  datatype Target = All | Users | Schedules

  function TargetName(t: Target): string {
    match t
    case All => "all"
    case Users => "users"
    case Schedules => "schedules"
  }

  datatype Result = Result(success: bool, message: string)

  /** `error.message || 'An unexpected error occurred.'`. */
  function FailureMessage(errorMessage: string): (m: string)
    ensures m != "" && (errorMessage != "" ==> m == errorMessage)
  {
    if errorMessage != "" then errorMessage else "An unexpected error occurred."
  }

  /** `p` is a collection directly under the document at `doc`. */
  predicate IsChild(p: Path, doc: Path) {
    |p| == |doc| + 1 && p[..|doc|] == doc
  }

  /** The first `n` ids: what a query with `limit(n)` returns. */
  function Take(ids: seq<string>, n: nat): (r: seq<string>)
    ensures |r| == if |ids| < n then |ids| else n
    ensures r == ids[..|r|]
  {
    if |ids| < n then ids else ids[..n]
  }

  function Sum(xs: seq<nat>): nat {
    if xs == [] then 0 else Sum(xs[..|xs| - 1]) + xs[|xs| - 1]
  }

  /** The ids without `id`. */
  function Remove(ids: seq<string>, id: string): (r: seq<string>)
    ensures forall x :: x in r <==> x in ids && x != id
    ensures multiset(r) == multiset(ids)[id := 0]
  {
    if ids == [] then []
    else
      assert ids == [ids[0]] + ids[1..];
      if ids[0] == id then Remove(ids[1..], id) else [ids[0]] + Remove(ids[1..], id)
  }

  /** The documents of collection `p` in the map of collections. */
  function DocsOf(collections: map<Path, seq<string>>, p: Path): seq<string> {
    if p in collections then collections[p] else []
  }

  /** Rewriting one collection leaves every other as it was. */
  lemma DocsOfUpdate(collections: map<Path, seq<string>>, path: Path, docs: seq<string>)
    ensures DocsOf(collections[path := docs], path) == docs
    ensures forall p :: p != path ==> DocsOf(collections[path := docs], p) == DocsOf(collections, p)
  {
  }

  class Database {
    /** The uids of the authentication accounts, in listing order. */
    var auth: seq<string>
    var collections: map<Path, seq<string>>
    /** Collections in which the backend refuses deletes: a commit there throws `errorText`. */
    const refused: set<Path>
    const errorText: string

    /** The documents of a collection; a collection nobody wrote to is empty. */
    function Docs(p: Path): seq<string>
      reads this
    {
      DocsOf(collections, p)
    }

    constructor (auth: seq<string>, collections: map<Path, seq<string>>, refused: set<Path>, errorText: string)
      ensures this.auth == auth && this.collections == collections
      ensures this.refused == refused && this.errorText == errorText
    {
      this.auth, this.collections := auth, collections;
      this.refused, this.errorText := refused, errorText;
    }

    /**
     * `deleteCollection(ref, batchSize)`: fetch at most `batchSize` documents,
     * delete them in one batch, fetch again, until a fetch is empty.
     * `batches` holds the size of each committed batch. A refused commit
     * throws and ends the loop.
     */
    method DeleteCollection(path: Path, batchSize: nat) returns (ok: bool, batches: seq<nat>)
      requires batchSize > 0
      modifies this
      ensures ok == (path !in refused || old(Docs(path)) == [])
      ensures ok ==> Docs(path) == []
      ensures !ok ==> Docs(path) == old(Docs(path))
      ensures ok ==> Sum(batches) == |old(Docs(path))|
      ensures forall k :: 0 <= k < |batches| ==> 0 < batches[k] <= batchSize
      ensures forall k :: 0 <= k < |batches| - 1 ==> batches[k] == batchSize
      ensures old(Docs(path)) == [] ==> batches == []
      ensures auth == old(auth)
      ensures forall p :: p != path ==> Docs(p) == old(Docs(p))
    {
      ghost var initial := Docs(path);
      var snapshot := Take(Docs(path), batchSize);
      batches := [];
      while |snapshot| > 0
        invariant snapshot == Take(Docs(path), batchSize)
        invariant Sum(batches) <= |initial|
        invariant Docs(path) == initial[Sum(batches)..]
        invariant Batched(batches, batchSize)
        invariant Docs(path) != [] ==> AllFull(batches, batchSize)
        invariant initial == [] ==> batches == []
        invariant batches != [] ==> path !in refused
        invariant auth == old(auth)
        invariant forall p :: p != path ==> Docs(p) == old(Docs(p))
        decreases |Docs(path)|
      {
        if path in refused {
          return false, batches;
        }
        var remaining := Docs(path)[|snapshot|..];
        DocsOfUpdate(collections, path, remaining);
        collections := collections[path := remaining];
        AppendBatch(batches, |snapshot|, batchSize);
        batches := batches + [|snapshot|];
        snapshot := Take(Docs(path), batchSize);
      }
      ok := true;
    }

    /**
     * `deleteSubcollections(doc)`: every collection directly under the
     * document is emptied with batches of 100. Collections further down are
     * not visited.
     */
    method DeleteSubcollections(doc: Path) returns (ok: bool)
      modifies this
      ensures ok == forall p :: IsChild(p, doc) && old(Docs(p)) != [] ==> p !in refused
      ensures ok ==> forall p :: IsChild(p, doc) ==> Docs(p) == []
      ensures forall p :: IsChild(p, doc) ==> Docs(p) == [] || Docs(p) == old(Docs(p))
      ensures forall p :: !IsChild(p, doc) ==> Docs(p) == old(Docs(p))
      ensures auth == old(auth)
    {
      var subcollections := set p | p in collections && IsChild(p, doc) && collections[p] != [];
      var todo := subcollections;
      ok := true;
      while todo != {}
        invariant todo <= subcollections
        invariant forall p :: p in subcollections && p !in todo ==> Docs(p) == []
        invariant forall p :: p in subcollections && p !in todo ==> p !in refused
        invariant forall p :: p in todo ==> Docs(p) == old(Docs(p))
        invariant forall p :: IsChild(p, doc) && p !in subcollections ==> Docs(p) == [] && old(Docs(p)) == []
        invariant forall p :: !IsChild(p, doc) ==> Docs(p) == old(Docs(p))
        invariant auth == old(auth)
        decreases |todo|
      {
        var p :| p in todo;
        var done, _ := DeleteCollection(p, BatchSize);
        if !done {
          return false;
        }
        todo := todo - {p};
      }
    }

    /**
     * Steps 1 and 2 of the action: delete the accounts of the first listing
     * page (at most 1000 uids, none excluded), then empty `users`.
     */
    method DeleteUsersData() returns (ok: bool)
      modifies this
      ensures auth == old(auth)[|Take(old(auth), ListUsersPageSize)|..]
      ensures ok == (UsersCollection !in refused || old(Docs(UsersCollection)) == [])
      ensures ok ==> Docs(UsersCollection) == []
      ensures forall p :: p != UsersCollection ==> Docs(p) == old(Docs(p))
    {
      var uids := Take(auth, ListUsersPageSize);
      if |uids| > 0 {
        auth := auth[|uids|..];
      }
      var batches;
      ok, batches := DeleteCollection(UsersCollection, BatchSize);
    }

    /** Every collection under the classroom document `d` is empty. */
    ghost predicate Emptied(d: string)
      reads this
    {
      forall p :: IsChild(p, ClassroomsCollection + [d]) ==> Docs(p) == []
    }

    /** One classroom of step 3: its subcollections are emptied, then the document is deleted. */
    method DeleteClassroom(d: string) returns (ok: bool)
      modifies this
      ensures auth == old(auth)
      ensures forall p :: OutsideClassrooms(p) ==> Docs(p) == old(Docs(p))
      ensures forall e :: old(Emptied(e)) ==> Emptied(e)
      ensures ok ==> Emptied(d) && Docs(ClassroomsCollection) == Remove(old(Docs(ClassroomsCollection)), d)
      ensures !ok ==> Docs(ClassroomsCollection) == old(Docs(ClassroomsCollection))
    {
      ok := DeleteSubcollections(ClassroomsCollection + [d]);
      forall e | old(Emptied(e))
        ensures Emptied(e)
      {
        forall p | IsChild(p, ClassroomsCollection + [e])
          ensures Docs(p) == []
        {
          if e != d {
            ChildOfOneClassroom(p, d, e);
          }
        }
      }
      if !ok {
        return;
      }
      if ClassroomsCollection in refused {
        return false;
      }
      DocsOfUpdate(collections, ClassroomsCollection, Remove(Docs(ClassroomsCollection), d));
      collections := collections[ClassroomsCollection := Remove(Docs(ClassroomsCollection), d)];
    }

    /**
     * Step 3: for each classroom document, empty its subcollections and then
     * delete the document. A classroom document is never deleted while one
     * of its subcollections still holds documents.
     */
    method DeleteClassroomsData() returns (ok: bool)
      modifies this
      ensures auth == old(auth)
      ensures forall p :: OutsideClassrooms(p) ==> Docs(p) == old(Docs(p))
      ensures ok ==> Docs(ClassroomsCollection) == []
      ensures forall d :: d in old(Docs(ClassroomsCollection)) && d !in Docs(ClassroomsCollection) ==> Emptied(d)
    {
      var classroomDocs := Docs(ClassroomsCollection);
      for i := 0 to |classroomDocs|
        invariant multiset(Docs(ClassroomsCollection)) <= multiset(classroomDocs[i..])
        invariant forall d :: d in classroomDocs && d !in Docs(ClassroomsCollection) ==> Emptied(d)
        invariant auth == old(auth)
        invariant forall p :: OutsideClassrooms(p) ==> Docs(p) == old(Docs(p))
      {
        var d := classroomDocs[i];
        ghost var before := multiset(Docs(ClassroomsCollection));
        ok := DeleteClassroom(d);
        if !ok {
          return;
        }
        SliceFront(classroomDocs, i);
        DropAll(before, multiset(classroomDocs[i + 1..]), d);
      }
      ok := true;
    }

    /**
     * `deleteAllDataAction({ target, adminSecret })`. A wrong secret is
     * refused before anything is touched. `users` runs steps 1 and 2,
     * `schedules` step 3, `all` all three. An error ends the action with its
     * message; what was already deleted stays deleted: the accounts of step 1
     * are gone whatever follows, a classroom removed in step 3 has had its
     * subcollections emptied, and for `all` step 3 only runs once `users` is
     * empty.
     */
    method DeleteAllDataAction(target: Target, adminSecret: string) returns (r: Result)
      modifies this
      ensures adminSecret != AdminSecret ==>
        r == Result(false, "Incorrect admin secret.") && auth == old(auth) && collections == old(collections)
      ensures r.success ==> r.message == "Successfully deleted all " + TargetName(target) + "."
      ensures !r.success && adminSecret == AdminSecret ==> r.message == FailureMessage(errorText)
      ensures target == Users ==> forall p :: p != UsersCollection ==> Docs(p) == old(Docs(p))
      ensures target == Schedules ==> auth == old(auth) && Docs(UsersCollection) == old(Docs(UsersCollection))
      ensures r.success && target != Schedules ==>
        Docs(UsersCollection) == [] && auth == old(auth)[|Take(old(auth), ListUsersPageSize)|..]
      ensures r.success && target != Users ==> Docs(ClassroomsCollection) == []
      ensures adminSecret == AdminSecret && target != Schedules ==>
        auth == old(auth)[|Take(old(auth), ListUsersPageSize)|..]
      ensures forall d :: d in old(Docs(ClassroomsCollection)) && d !in Docs(ClassroomsCollection) ==> Emptied(d)
      ensures target == All && (exists p :: p != UsersCollection && Docs(p) != old(Docs(p))) ==>
        Docs(UsersCollection) == []
    {
      if adminSecret != AdminSecret {
        return Result(false, "Incorrect admin secret.");
      }
      if target == Users || target == All {
        var ok := DeleteUsersData();
        if !ok {
          return Result(false, FailureMessage(errorText));
        }
      }
      if target == Schedules || target == All {
        var ok := DeleteClassroomsData();
        if !ok {
          return Result(false, FailureMessage(errorText));
        }
      }
      r := Result(true, "Successfully deleted all " + TargetName(target) + ".");
    }
  }

  /** The documents from position `i` on are the one at `i` and those after it. */
  lemma SliceFront(s: seq<string>, i: nat)
    requires i < |s|
    ensures multiset(s[i..]) == multiset{s[i]} + multiset(s[i + 1..])
  {
    assert s[i..] == [s[i]] + s[i + 1..];
  }

  /** Batch sizes as `deleteCollection` commits them: none empty, none above the limit, all full but the last. */
  ghost predicate Batched(batches: seq<nat>, batchSize: nat) {
    && (forall k :: 0 <= k < |batches| ==> 0 < batches[k] <= batchSize)
    && (forall k :: 0 <= k < |batches| - 1 ==> batches[k] == batchSize)
  }

  ghost predicate AllFull(batches: seq<nat>, batchSize: nat) {
    forall k :: 0 <= k < |batches| ==> batches[k] == batchSize
  }

  /** One more batch after full ones. */
  lemma AppendBatch(batches: seq<nat>, n: nat, batchSize: nat)
    requires AllFull(batches, batchSize) && 0 < n <= batchSize
    ensures Batched(batches + [n], batchSize)
    ensures n == batchSize ==> AllFull(batches + [n], batchSize)
    ensures Sum(batches + [n]) == Sum(batches) + n
  {
    assert (batches + [n])[..|batches|] == batches;
  }

  /** A collection that is neither `classrooms` nor anywhere below it. */
  predicate OutsideClassrooms(p: Path) {
    p == [] || p[0] != ClassroomsCollection[0]
  }

  lemma DropAll(a: multiset<string>, b: multiset<string>, d: string)
    requires a <= multiset{d} + b
    ensures a[d := 0] <= b
  {
    forall x
      ensures a[d := 0][x] <= b[x]
    {
      assert a[x] <= (multiset{d} + b)[x];
    }
  }

  /** A collection sits under at most one classroom document. */
  lemma ChildOfOneClassroom(p: Path, d: string, e: string)
    requires IsChild(p, ClassroomsCollection + [e]) && d != e
    ensures !IsChild(p, ClassroomsCollection + [d])
  {
    assert p[1] == (ClassroomsCollection + [e])[1];
  }

  /** The batches of a delete, all but the last being full, number ceil(N / batchSize) for N documents. */
  lemma BatchCount(batches: seq<nat>, batchSize: nat)
    requires batchSize > 0 && batches != []
    requires forall k :: 0 <= k < |batches| ==> 0 < batches[k] <= batchSize
    requires forall k :: 0 <= k < |batches| - 1 ==> batches[k] == batchSize
    ensures (|batches| - 1) * batchSize < Sum(batches) <= |batches| * batchSize
  {
    var n := |batches|;
    var front := batches[..n - 1];
    FullBatches(front, batchSize);
    assert Sum(batches) == (n - 1) * batchSize + batches[n - 1];
    assert n * batchSize == (n - 1) * batchSize + batchSize;
  }

  lemma {:induction false} FullBatches(xs: seq<nat>, size: nat)
    requires forall k :: 0 <= k < |xs| ==> xs[k] == size
    ensures Sum(xs) == |xs| * size
  {
    if xs != [] {
      FullBatches(xs[..|xs| - 1], size);
      assert |xs| * size == (|xs| - 1) * size + size;
    }
  }
}
