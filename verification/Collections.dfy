/** The collection of saved questions: adding or removing one (App.tsx:693-698) and merging
    imported questions (App.tsx:700-707). */
module Collections {
  import opened Types

  /** Whether some saved question has the id. */
  predicate HasId(items: seq<Question>, id: string)
  {
    exists i :: 0 <= i < |items| && items[i].id == id
  }

  /** The saved questions without those carrying `id`, the others kept in order. */
  function WithoutId(items: seq<Question>, id: string): (r: seq<Question>)
    ensures |r| <= |items|
  {
    if items == [] then []
    else (if items[0].id == id then [] else [items[0]]) + WithoutId(items[1..], id)
  }

  /** Exactly the questions with other ids stay. */
  lemma {:induction false} WithoutIdMembers(items: seq<Question>, id: string)
    ensures forall q :: q in WithoutId(items, id) <==> q in items && q.id != id
  {
    if items != [] {
      WithoutIdMembers(items[1..], id);
      assert items == [items[0]] + items[1..];
    }
  }

  /** Every copy of a question with the id goes, every other question keeps its count. */
  lemma {:induction false} WithoutIdMultiset(items: seq<Question>, id: string)
    ensures forall p :: multiset(WithoutId(items, id))[p] == (if p.id == id then 0 else multiset(items)[p])
  {
    if items != [] {
      WithoutIdMultiset(items[1..], id);
      assert items == [items[0]] + items[1..];
    }
  }

  /** The questions that stay keep their order: removal works piece by piece. */
  lemma {:induction false} WithoutIdConcat(a: seq<Question>, b: seq<Question>, id: string)
    ensures WithoutId(a + b, id) == WithoutId(a, id) + WithoutId(b, id)
  {
    if a == [] {
      assert a + b == b;
    } else {
      var h := if a[0].id == id then [] else [a[0]];
      assert (a + b)[0] == a[0];
      assert (a + b)[1..] == a[1..] + b;
      assert WithoutId(a + b, id) == h + WithoutId(a[1..] + b, id);
      WithoutIdConcat(a[1..], b, id);
      assert h + (WithoutId(a[1..], id) + WithoutId(b, id))
        == (h + WithoutId(a[1..], id)) + WithoutId(b, id);
    }
  }

  /** The collection after the star of `q` is clicked: every saved question with its id
      goes when one is saved, otherwise `q` is appended. */
  function Toggled(items: seq<Question>, q: Question): (r: seq<Question>)
    ensures HasId(items, q.id) ==> !HasId(r, q.id) && |r| < |items|
    ensures HasId(items, q.id) ==> r == WithoutId(items, q.id)
    ensures HasId(items, q.id) ==>
      forall p :: multiset(r)[p] == (if p.id == q.id then 0 else multiset(items)[p])
    ensures !HasId(items, q.id) ==> |r| == |items| + 1 && r[..|items|] == items && r[|items|] == q
    ensures forall p: Question :: p.id != q.id ==> (p in r <==> p in items)
  {
    if HasId(items, q.id) then
      var k :| 0 <= k < |items| && items[k].id == q.id;
      WithoutIdShrinks(items, k);
      WithoutIdMembers(items, q.id);
      WithoutIdMultiset(items, q.id);
      WithoutId(items, q.id)
    else
      assert (items + [q])[|items|] == q;
      assert (items + [q])[..|items|] == items;
      items + [q]
  }

  lemma {:induction false} WithoutIdShrinks(items: seq<Question>, k: nat)
    requires k < |items|
    ensures |WithoutId(items, items[k].id)| < |items|
  {
    var id := items[k].id;
    if k > 0 {
      assert items[1..][k - 1] == items[k];
      WithoutIdShrinks(items[1..], k - 1);
    }
  }

  /** Removing an id that was only on the question appended last gives the earlier
      collection back. */
  lemma {:induction false} WithoutIdAppended(items: seq<Question>, q: Question)
    requires !HasId(items, q.id)
    ensures WithoutId(items + [q], q.id) == items
  {
    if items == [] {
      assert [] + [q] == [q];
    } else {
      var t := items[1..];
      assert !HasId(t, q.id) by {
        forall i | 0 <= i < |t| ensures t[i].id != q.id {
          assert t[i] == items[i + 1];
        }
      }
      WithoutIdAppended(t, q);
      assert items == [items[0]] + t;
      assert items + [q] == [items[0]] + (t + [q]);
      WithoutIdCons(items[0], t + [q], q.id);
    }
  }

  lemma WithoutIdCons(x: Question, t: seq<Question>, id: string)
    requires x.id != id
    ensures WithoutId([x] + t, id) == [x] + WithoutId(t, id)
  {
    assert ([x] + t)[0] == x;
    assert ([x] + t)[1..] == t;
  }

  /** Clicking the star of an unsaved question twice restores the collection. */
  lemma ToggleTwice(items: seq<Question>, q: Question)
    requires !HasId(items, q.id)
    ensures Toggled(Toggled(items, q), q) == items
  {
    assert (items + [q])[|items|] == q;
    WithoutIdAppended(items, q);
  }

  /** The question texts already saved. */
  function Texts(items: seq<Question>): (r: set<string>)
    ensures forall i :: 0 <= i < |items| ==> items[i].question in r
    ensures forall t :: t in r ==> exists i :: 0 <= i < |items| && items[i].question == t
  {
    set i | 0 <= i < |items| :: items[i].question
  }

  /** The imported questions whose text is not saved yet, in import order (two imported
      questions with the same new text are both kept). */
  function NewItems(items: seq<Question>, qs: seq<Question>): (r: seq<Question>)
    ensures |r| <= |qs|
    ensures forall q :: q in r <==> q in qs && q.question !in Texts(items)
  {
    if qs == [] then []
    else
      (if qs[0].question in Texts(items) then [] else [qs[0]]) + NewItems(items, qs[1..])
  }

  /** The filter keeps import order: the new questions of a concatenated batch are those of
      its first part, then those of its second part. */
  lemma {:induction false} NewItemsConcat(items: seq<Question>, a: seq<Question>, b: seq<Question>)
    ensures NewItems(items, a + b) == NewItems(items, a) + NewItems(items, b)
  {
    if a == [] {
      assert a + b == b;
    } else {
      var h := if a[0].question in Texts(items) then [] else [a[0]];
      assert (a + b)[0] == a[0];
      assert (a + b)[1..] == a[1..] + b;
      assert NewItems(items, a + b) == h + NewItems(items, a[1..] + b);
      NewItemsConcat(items, a[1..], b);
      assert h + (NewItems(items, a[1..]) + NewItems(items, b))
        == (h + NewItems(items, a[1..])) + NewItems(items, b);
    }
  }

  /** `handleImportCollections`: the saved questions, then the new ones. */
  function Merged(items: seq<Question>, qs: seq<Question>): (r: seq<Question>)
  {
    items + NewItems(items, qs)
  }

  /** A merge keeps every saved question in place and appends only imported questions whose
      text was not saved. */
  lemma MergeExtends(items: seq<Question>, qs: seq<Question>)
    ensures |Merged(items, qs)| >= |items|
    ensures Merged(items, qs)[..|items|] == items
    ensures forall i :: |items| <= i < |Merged(items, qs)| ==>
      Merged(items, qs)[i] in qs && Merged(items, qs)[i].question !in Texts(items)
  {
    var r := Merged(items, qs);
    forall i | |items| <= i < |r| ensures r[i] in qs && r[i].question !in Texts(items) {
      assert r[i] == NewItems(items, qs)[i - |items|];
    }
  }

  /** After a merge every imported text is saved. */
  lemma MergeCoversTexts(items: seq<Question>, qs: seq<Question>)
    ensures forall j :: 0 <= j < |qs| ==> qs[j].question in Texts(Merged(items, qs))
  {
    var r := Merged(items, qs);
    forall j | 0 <= j < |qs| ensures qs[j].question in Texts(r) {
      if qs[j].question !in Texts(items) {
        assert qs[j] in NewItems(items, qs);
        var k :| 0 <= k < |NewItems(items, qs)| && NewItems(items, qs)[k] == qs[j];
        assert r[|items| + k] == qs[j];
      } else {
        var k :| 0 <= k < |items| && items[k].question == qs[j].question;
        assert r[k] == items[k];
      }
    }
  }

  lemma {:induction false} NothingNew(items: seq<Question>, qs: seq<Question>)
    requires forall j :: 0 <= j < |qs| ==> qs[j].question in Texts(items)
    ensures NewItems(items, qs) == []
  {
    if qs != [] {
      assert forall j :: 0 <= j < |qs[1..]| ==> qs[1..][j].question in Texts(items) by {
        forall j | 0 <= j < |qs[1..]| ensures qs[1..][j].question in Texts(items) {
          assert qs[1..][j] == qs[j + 1];
        }
      }
      NothingNew(items, qs[1..]);
    }
  }

  /** Importing the same questions again changes nothing. */
  lemma MergeIdempotent(items: seq<Question>, qs: seq<Question>)
    ensures Merged(Merged(items, qs), qs) == Merged(items, qs)
  {
    MergeCoversTexts(items, qs);
    NothingNew(Merged(items, qs), qs);
  }

  /** The saved questions, persisted by the page; `items` is replaced by every update. */
  class Collection {
    var items: seq<Question>

    constructor(saved: seq<Question>)
      ensures items == saved
    {
      items := saved;
    }

    /** Whether the star of question `id` is lit. */
    predicate IsCollected(id: string)
      reads this
    {
      HasId(items, id)
    }

    /** `toggleCollection`. */
    method Toggle(q: Question)
      modifies this
      ensures items == Toggled(old(items), q)
      ensures IsCollected(q.id) <==> !old(IsCollected(q.id))
    {
      items := Toggled(items, q);
    }

    /** `handleImportCollections`. */
    method ImportQuestions(qs: seq<Question>)
      modifies this
      ensures items == Merged(old(items), qs)
      ensures old(items) <= items
    {
      MergeExtends(items, qs);
      items := Merged(items, qs);
    }
  }
}
