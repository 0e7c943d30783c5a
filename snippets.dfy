/**
 * The snippet store of src/snippets/mod.rs: the `Snippet` record and the three
 * read-modify-write operations on the stored list. The JSON file behind
 * `get_snippets` / `write_snippets` is abstracted to a field holding the list.
 */
module Snippets {

  /** One stored snippet, built by `Snippet::new(id, name, keyword, language, snippet)`. */
  datatype Snippet = Snippet(id: nat, name: string, keyword: string, language: string, body: string)

  /** Some record of `s` carries `id`. */
  predicate HasId(s: seq<Snippet>, id: nat)
  {
    exists k :: 0 <= k < |s| && s[k].id == id
  }

  /** No two records share an id. */
  predicate UniqueIds(s: seq<Snippet>)
  {
    forall i, j :: 0 <= i < j < |s| ==> s[i].id != s[j].id
  }

  // ---------------------------------------------------------------------
  // add_snippet
  // ---------------------------------------------------------------------

  /** The id of `max_by_key(|s| s.id)` over a non-empty store. */
  function MaxId(s: seq<Snippet>): (m: nat)
    requires s != []
    ensures HasId(s, m)
    ensures forall k :: 0 <= k < |s| ==> s[k].id <= m
  {
    if |s| == 1 then s[0].id
    else
      var m' := MaxId(s[..|s| - 1]);
      if s[|s| - 1].id >= m' then s[|s| - 1].id else m'
  }

  /** The id add_snippet gives a new record: 0 for an empty store, else one past the largest. */
  function NextId(s: seq<Snippet>): (id: nat)
    ensures forall k :: 0 <= k < |s| ==> s[k].id < id
    ensures !HasId(s, id)
  {
    if s == [] then 0 else MaxId(s) + 1
  }

  /** The store after `add_snippet(name, language, keyword, snippet)`. */
  function Added(s: seq<Snippet>, name: string, language: string, keyword: string, body: string): seq<Snippet>
  {
    s + [Snippet(NextId(s), name, keyword, language, body)]
  }

  /** Adding to an empty store gives exactly one record, with id 0. */
  lemma AddToEmpty(name: string, language: string, keyword: string, body: string)
    ensures Added([], name, language, keyword, body) == [Snippet(0, name, keyword, language, body)]
  {
  }

  /**
   * Adding appends one record at the end, leaves every earlier record where it
   * was, stores each argument in its own field, and picks an id that is one past
   * the largest existing id and so differs from all of them.
   */
  lemma AddAppends(s: seq<Snippet>, name: string, language: string, keyword: string, body: string)
    ensures var r := Added(s, name, language, keyword, body);
      && |r| == |s| + 1
      && r[..|s|] == s
      && r[|s|].name == name && r[|s|].keyword == keyword
      && r[|s|].language == language && r[|s|].body == body
      && (s != [] ==> r[|s|].id == MaxId(s) + 1)
      && !HasId(s, r[|s|].id)
  {
  }

  /** Adding keeps ids pairwise distinct. */
  lemma AddKeepsUniqueIds(s: seq<Snippet>, name: string, language: string, keyword: string, body: string)
    requires UniqueIds(s)
    ensures UniqueIds(Added(s, name, language, keyword, body))
  {
  }

  // ---------------------------------------------------------------------
  // delete_snippet
  // ---------------------------------------------------------------------

  /** The records of `s` that `keep` accepts, in their order in `s`. */
  function Filter(s: seq<Snippet>, keep: Snippet -> bool): (r: seq<Snippet>)
    ensures |r| <= |s|
    ensures forall x :: x in r <==> x in s && keep(x)
  {
    if s == [] then []
    else
      var init := Filter(s[..|s| - 1], keep);
      assert forall x :: x in s <==> x in s[..|s| - 1] || x == s[|s| - 1] by {
        assert s == s[..|s| - 1] + [s[|s| - 1]];
      }
      if keep(s[|s| - 1]) then init + [s[|s| - 1]] else init
  }

  /** Filtering works piece by piece, so it keeps the relative order of the records. */
  lemma {:induction false} FilterConcat(a: seq<Snippet>, b: seq<Snippet>, keep: Snippet -> bool)
    ensures Filter(a + b, keep) == Filter(a, keep) + Filter(b, keep)
    decreases |b|
  {
    if b != [] {
      var b' := b[..|b| - 1];
      assert (a + b)[..|a + b| - 1] == a + b';
      FilterConcat(a, b', keep);
    } else {
      assert a + b == a;
    }
  }

  /** Filtering a list every record of which is kept changes nothing. */
  lemma {:induction false} FilterKeepsAll(s: seq<Snippet>, keep: Snippet -> bool)
    requires forall k :: 0 <= k < |s| ==> keep(s[k])
    ensures Filter(s, keep) == s
  {
    if s != [] {
      FilterKeepsAll(s[..|s| - 1], keep);
    }
  }

  /** Every record that survives a filter is kept by it, so filtering twice is filtering once. */
  lemma FilterIdempotent(s: seq<Snippet>, keep: Snippet -> bool)
    ensures Filter(Filter(s, keep), keep) == Filter(s, keep)
  {
  }

  /** The predicate of `.filter(|s| s.id != id)`. */
  function OtherThan(id: nat): Snippet -> bool
  {
    (x: Snippet) => x.id != id
  }

  /** The store after `delete_snippet(id)`: the records whose id is not `id`. */
  function Deleted(s: seq<Snippet>, id: nat): seq<Snippet>
  {
    Filter(s, OtherThan(id))
  }

  /**
   * After deleting `id` no record has that id, and the records left are exactly
   * the others, in their original order.
   */
  lemma DeleteRemoves(s: seq<Snippet>, id: nat)
    ensures !HasId(Deleted(s, id), id)
    ensures forall x :: x in Deleted(s, id) <==> x in s && x.id != id
    ensures forall a, b :: s == a + b ==> Deleted(s, id) == Deleted(a, id) + Deleted(b, id)
  {
    var r := Deleted(s, id);
    forall k | 0 <= k < |r| ensures r[k].id != id {
      assert r[k] in r;
    }
    forall a, b | s == a + b ensures Deleted(s, id) == Deleted(a, id) + Deleted(b, id) {
      FilterConcat(a, b, OtherThan(id));
    }
  }

  /** Deleting an id that no record carries leaves the store as it is. */
  lemma DeleteAbsent(s: seq<Snippet>, id: nat)
    requires !HasId(s, id)
    ensures Deleted(s, id) == s
  {
    FilterKeepsAll(s, OtherThan(id));
  }

  /** Deleting the same id twice is deleting it once. */
  lemma DeleteIdempotent(s: seq<Snippet>, id: nat)
    ensures Deleted(Deleted(s, id), id) == Deleted(s, id)
  {
    FilterIdempotent(s, OtherThan(id));
  }

  /** Deleting keeps ids pairwise distinct. */
  lemma {:induction false} DeleteKeepsUniqueIds(s: seq<Snippet>, id: nat)
    requires UniqueIds(s)
    ensures UniqueIds(Deleted(s, id))
  {
    if s != [] {
      var init := s[..|s| - 1];
      var last := s[|s| - 1];
      DeleteKeepsUniqueIds(init, id);
      var r := Deleted(init, id);
      forall k | 0 <= k < |r| ensures r[k].id != last.id {
        assert r[k] in r;
        var j :| 0 <= j < |init| && init[j] == r[k];
        assert s[j] == init[j];
      }
    }
  }

  // ---------------------------------------------------------------------
  // edit_snippet
  // ---------------------------------------------------------------------

  /** The store after `edit_snippet(id, name, keyword, language, snippet)`. */
  function Edited(s: seq<Snippet>, id: nat, name: string, keyword: string, language: string, body: string): (r: seq<Snippet>)
    ensures |r| == |s|
    ensures forall k :: 0 <= k < |s| ==>
      r[k] == if s[k].id == id then Snippet(s[k].id, name, keyword, language, body) else s[k]
  {
    if s == [] then []
    else
      var last := s[|s| - 1];
      Edited(s[..|s| - 1], id, name, keyword, language, body)
        + [if last.id == id then Snippet(last.id, name, keyword, language, body) else last]
  }

  /**
   * Editing keeps the length, the order and every id, and rewrites the fields of
   * exactly the records whose id is `id`.
   */
  lemma {:induction false} EditKeepsIds(s: seq<Snippet>, id: nat, name: string, keyword: string, language: string, body: string)
    ensures var r := Edited(s, id, name, keyword, language, body);
      && |r| == |s|
      && (forall k :: 0 <= k < |s| ==> r[k].id == s[k].id)
      && (forall k :: 0 <= k < |s| && s[k].id != id ==> r[k] == s[k])
      && (forall k :: 0 <= k < |s| && s[k].id == id ==>
            r[k].name == name && r[k].keyword == keyword && r[k].language == language && r[k].body == body)
  {
  }

  /** Editing an id that no record carries leaves the store as it is. */
  lemma EditAbsent(s: seq<Snippet>, id: nat, name: string, keyword: string, language: string, body: string)
    requires !HasId(s, id)
    ensures Edited(s, id, name, keyword, language, body) == s
  {
  }

  /** Editing twice with the same values is editing once. */
  lemma EditIdempotent(s: seq<Snippet>, id: nat, name: string, keyword: string, language: string, body: string)
    ensures var r := Edited(s, id, name, keyword, language, body);
      Edited(r, id, name, keyword, language, body) == r
  {
  }

  /** Editing keeps ids pairwise distinct. */
  lemma EditKeepsUniqueIds(s: seq<Snippet>, id: nat, name: string, keyword: string, language: string, body: string)
    requires UniqueIds(s)
    ensures UniqueIds(Edited(s, id, name, keyword, language, body))
  {
  }

  // ---------------------------------------------------------------------
  // The store
  // ---------------------------------------------------------------------

  /** The stored list of snippets; `get_snippets` reads it and `write_snippets` replaces it. */
  class SnippetStore {
    var snippets: seq<Snippet>

    /** `init_snippets` on a first run writes an empty list. */
    constructor ()
      ensures snippets == []
    {
      snippets := [];
    }

    method GetSnippets() returns (s: seq<Snippet>)
      ensures s == snippets
    {
      s := snippets;
    }

    method WriteSnippets(s: seq<Snippet>)
      modifies this
      ensures snippets == s
    {
      snippets := s;
    }

    /** `add_snippet(name, language, keyword, snippet)`. */
    method AddSnippet(name: string, language: string, keyword: string, body: string)
      modifies this
      ensures snippets == Added(old(snippets), name, language, keyword, body)
      ensures UniqueIds(old(snippets)) ==> UniqueIds(snippets)
    {
      var s := GetSnippets();
      if s == [] {
        s := s + [Snippet(0, name, keyword, language, body)];
      } else {
        var latestId := MaxId(s);
        s := s + [Snippet(latestId + 1, name, keyword, language, body)];
      }
      WriteSnippets(s);
      if UniqueIds(old(snippets)) {
        AddKeepsUniqueIds(old(snippets), name, language, keyword, body);
      }
    }

    /** `delete_snippet(id)`. */
    method DeleteSnippet(id: nat)
      modifies this
      ensures snippets == Deleted(old(snippets), id)
      ensures !HasId(snippets, id)
      ensures UniqueIds(old(snippets)) ==> UniqueIds(snippets)
    {
      var s := GetSnippets();
      DeleteRemoves(s, id);
      if UniqueIds(s) {
        DeleteKeepsUniqueIds(s, id);
      }
      WriteSnippets(Deleted(s, id));
    }

    /** `edit_snippet(id, name, keyword, language, snippet)`: rebuilds the list record by record. */
    method EditSnippet(id: nat, name: string, keyword: string, language: string, body: string)
      modifies this
      ensures snippets == Edited(old(snippets), id, name, keyword, language, body)
      ensures UniqueIds(old(snippets)) ==> UniqueIds(snippets)
    {
      var current := GetSnippets();
      var s: seq<Snippet> := [];
      var i := 0;
      while i < |current|
        invariant 0 <= i <= |current|
        invariant s == Edited(current[..i], id, name, keyword, language, body)
      {
        var sp := current[i];
        if sp.id == id {
          s := s + [Snippet(sp.id, name, keyword, language, body)];
        } else {
          s := s + [sp];
        }
        assert current[..i + 1][..i] == current[..i];
        i := i + 1;
      }
      assert current[..i] == current;
      WriteSnippets(s);
      if UniqueIds(old(snippets)) {
        EditKeepsUniqueIds(old(snippets), id, name, keyword, language, body);
      }
    }
  }
}
