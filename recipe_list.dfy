/**
  The recipe record and the pure list computations of the recipe book:
  the `map` that replaces the edited entry, the append of a new entry,
  the `filter` that deletes by id and the `find` that looks an entry up.
  The collection is an ordered sequence; its order is the display order.
 */
module RecipeList {
  import opened Wrappers

  /** One recipe. Every field is a string; `id` is the lookup key. */
  datatype Recipe = Recipe(id: string, title: string, ingredients: string, preparation: string)

  /** Some entry of `rs` carries the identifier `id`. */
  predicate HasId(rs: seq<Recipe>, id: string) {
    exists i :: 0 <= i < |rs| && rs[i].id == id
  }

  /** No two entries of `rs` share an identifier. */
  predicate DistinctIds(rs: seq<Recipe>) {
    forall i, j :: 0 <= i < j < |rs| ==> rs[i].id != rs[j].id
  }

  /** The presence check on the draft: JavaScript's `!s` holds of a string exactly when it is `''`. */
  predicate DraftComplete(title: string, ingredients: string, preparation: string)
  {
    title != "" && ingredients != "" && preparation != ""
  }

  /**
    Whether the editing target selects the edit branch. The target is `null`
    or an id string, and it is tested for truthiness, so an empty id counts
    as "not editing".
   */
  predicate IsEditing(target: Option<string>)
  {
    target.Some? && target.value != ""
  }

  /** The edit step: every entry whose id is `id` gives way to `replacement`; the others stay. */
  function ReplaceById(rs: seq<Recipe>, id: string, replacement: Recipe): (r: seq<Recipe>)
    ensures |r| == |rs|
    ensures forall i :: 0 <= i < |rs| ==> r[i] == if rs[i].id == id then replacement else rs[i]
    ensures !HasId(rs, id) ==> r == rs
  {
    if rs == [] then []
    else [if rs[0].id == id then replacement else rs[0]] + ReplaceById(rs[1..], id, replacement)
  }

  /** The delete step: keep, in order, the entries whose id is not `id`. */
  function RemoveById(rs: seq<Recipe>, id: string): (r: seq<Recipe>)
    ensures !HasId(r, id)
    ensures |r| <= |rs|
  {
    if rs == [] then []
    else if rs[0].id == id then RemoveById(rs[1..], id)
    else [rs[0]] + RemoveById(rs[1..], id)
  }

  /** The lookup step: the first entry whose id is `id`, if there is one. */
  function Find(rs: seq<Recipe>, id: string): (r: Option<Recipe>)
    ensures r.None? <==> !HasId(rs, id)
    ensures r.Some? ==> r.value.id == id && r.value in rs
  {
    if rs == [] then None
    else if rs[0].id == id then Some(rs[0])
    else
      assert forall i :: 1 <= i < |rs| ==> rs[i] == rs[1..][i - 1];
      Find(rs[1..], id)
  }

  /**
    The list that a successful submit produces from `rs`: in edit mode every
    entry with the target id becomes `entry`, otherwise `entry` is appended.
   */
  function SubmitList(rs: seq<Recipe>, target: Option<string>, entry: Recipe): (r: seq<Recipe>)
    ensures IsEditing(target) ==>
      && |r| == |rs|
      && (forall i :: 0 <= i < |rs| ==> r[i] == if rs[i].id == target.value then entry else rs[i])
    ensures !IsEditing(target) ==> |r| == |rs| + 1 && r[..|rs|] == rs && r[|rs|] == entry
  {
    if IsEditing(target) then ReplaceById(rs, target.value, entry) else rs + [entry]
  }

  // ---------------------------------------------------------------------------
  // Delete

  /** Deleting drops every copy of each record with that id and keeps every other record as often as before. */
  lemma {:induction false} RemoveByIdCounts(rs: seq<Recipe>, id: string)
    ensures forall x :: multiset(RemoveById(rs, id))[x] == if x.id == id then 0 else multiset(rs)[x]
  {
    if rs != [] {
      assert rs == [rs[0]] + rs[1..];
      RemoveByIdCounts(rs[1..], id);
    }
  }

  /** Filtering distributes over concatenation, so survivors keep their relative order. */
  lemma {:induction false} RemoveByIdAppend(a: seq<Recipe>, b: seq<Recipe>, id: string)
    ensures RemoveById(a + b, id) == RemoveById(a, id) + RemoveById(b, id)
  {
    if a == [] {
      assert a + b == b;
    } else {
      assert (a + b)[0] == a[0];
      assert (a + b)[1..] == a[1..] + b;
      RemoveByIdAppend(a[1..], b, id);
    }
  }

  /** Deleting an id that is not in the list leaves the list as it was. */
  lemma {:induction false} RemoveByIdAbsent(rs: seq<Recipe>, id: string)
    requires !HasId(rs, id)
    ensures RemoveById(rs, id) == rs
  {
    if rs != [] {
      assert rs[0].id != id;
      assert !HasId(rs[1..], id) by {
        forall i | 0 <= i < |rs[1..]| ensures rs[1..][i].id != id {
          assert rs[1..][i] == rs[i + 1];
        }
      }
      RemoveByIdAbsent(rs[1..], id);
      assert rs == [rs[0]] + rs[1..];
    }
  }

  /** Entry `k` is the only entry carrying its id. */
  predicate OnlyAt(rs: seq<Recipe>, k: nat)
    requires k < |rs|
  {
    forall j :: 0 <= j < |rs| && j != k ==> rs[j].id != rs[k].id
  }

  /** When entry `k` alone carries its id, deleting that id removes exactly entry `k`. */
  lemma {:induction false} RemoveByIdUnique(rs: seq<Recipe>, k: nat)
    requires k < |rs| && OnlyAt(rs, k)
    ensures RemoveById(rs, rs[k].id) == rs[..k] + rs[k + 1..]
  {
    var id, tail := rs[k].id, rs[1..];
    if k == 0 {
      assert !HasId(tail, id) by {
        forall i | 0 <= i < |tail| ensures tail[i].id != id {
          assert tail[i] == rs[i + 1];
        }
      }
      RemoveByIdAbsent(tail, id);
    } else {
      assert tail[k - 1] == rs[k];
      assert OnlyAt(tail, k - 1) by {
        forall j | 0 <= j < |tail| && j != k - 1 ensures tail[j].id != id {
          assert tail[j] == rs[j + 1];
        }
      }
      RemoveByIdUnique(tail, k - 1);
      assert rs[..k] == [rs[0]] + tail[..k - 1];
      assert rs[k + 1..] == tail[k..];
    }
  }

  /** Distinct ids leave every entry alone with its id. */
  lemma DistinctOnlyAt(rs: seq<Recipe>, k: nat)
    requires DistinctIds(rs) && k < |rs|
    ensures OnlyAt(rs, k)
  {
  }

  /** Deleting keeps the ids distinct. */
  lemma {:induction false} RemoveByIdKeepsDistinct(rs: seq<Recipe>, id: string)
    requires DistinctIds(rs)
    ensures DistinctIds(RemoveById(rs, id))
  {
    if rs != [] {
      var tail := rs[1..];
      assert DistinctIds(tail) by {
        forall i, j | 0 <= i < j < |tail| ensures tail[i].id != tail[j].id {
          assert tail[i] == rs[i + 1] && tail[j] == rs[j + 1];
        }
      }
      RemoveByIdKeepsDistinct(tail, id);
      if rs[0].id != id {
        var rest := RemoveById(tail, id);
        RemoveByIdCounts(tail, id);
        forall i | 0 <= i < |rest| ensures rest[i].id != rs[0].id {
          assert multiset(rest)[rest[i]] > 0;
          assert rest[i] in tail;
        }
        assert RemoveById(rs, id) == [rs[0]] + rest;
      }
    }
  }

  // ---------------------------------------------------------------------------
  // Lookup

  /** Find returns the entry at the first position whose id matches. */
  lemma {:induction false} FindFirst(rs: seq<Recipe>, id: string, k: nat)
    requires k < |rs| && rs[k].id == id
    requires forall j :: 0 <= j < k ==> rs[j].id != id
    ensures Find(rs, id) == Some(rs[k])
  {
    if k > 0 {
      assert rs[0].id != id;
      assert rs[1..][k - 1] == rs[k];
      FindFirst(rs[1..], id, k - 1);
    }
  }

  /** With distinct ids, looking up the id of entry `k` yields entry `k`. */
  lemma FindDistinct(rs: seq<Recipe>, k: nat)
    requires DistinctIds(rs) && k < |rs|
    ensures Find(rs, rs[k].id) == Some(rs[k])
  {
    FindFirst(rs, rs[k].id, k);
  }

  // ---------------------------------------------------------------------------
  // Submit

  /** A falsy editing target, `null` or the empty id, takes the append branch. */
  lemma FalsyTargetAppends(rs: seq<Recipe>, entry: Recipe)
    ensures SubmitList(rs, None, entry) == rs + [entry]
    ensures SubmitList(rs, Some(""), entry) == rs + [entry]
  {
  }

  /** A non-empty editing target takes the edit branch, even when no entry matches it. */
  lemma TruthyTargetEdits(rs: seq<Recipe>, id: string, entry: Recipe)
    requires id != ""
    ensures SubmitList(rs, Some(id), entry) == ReplaceById(rs, id, entry)
    ensures !HasId(rs, id) ==> SubmitList(rs, Some(id), entry) == rs
  {
  }

  /** When entry `k` alone carries its id, editing that id replaces exactly entry `k`, in place. */
  lemma ReplaceByIdUnique(rs: seq<Recipe>, k: nat, entry: Recipe)
    requires k < |rs| && OnlyAt(rs, k)
    ensures ReplaceById(rs, rs[k].id, entry) == rs[..k] + [entry] + rs[k + 1..]
  {
  }

  /** Replacing with a record whose id is not yet in the list keeps the ids distinct. */
  lemma ReplaceByIdKeepsDistinct(rs: seq<Recipe>, id: string, entry: Recipe)
    requires DistinctIds(rs) && !HasId(rs, entry.id)
    ensures DistinctIds(ReplaceById(rs, id, entry))
  {
  }

  /**
    A submit whose generated id is not yet in the list keeps the ids distinct,
    in both the create and the edit mode.
   */
  lemma SubmitKeepsDistinct(rs: seq<Recipe>, target: Option<string>, entry: Recipe)
    requires DistinctIds(rs) && !HasId(rs, entry.id)
    ensures DistinctIds(SubmitList(rs, target, entry))
  {
  }
}
