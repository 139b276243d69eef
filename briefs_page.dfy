/** The briefs page: the list of stored briefs, a text filter over it, and
    deletion of a brief from the list once the server confirms it. */
module BriefsPage {
  import opened Wrappers
  import opened Text

  /** A stored brief as the list shows it. */
  datatype Brief = Brief(id: string, url: Option<string>, title: Option<string>,
                         createdAt: Option<string>, updatedAt: Option<string>)

  /** The lower-cased query `q` occurs in the lower-cased id, url or title
      (a missing url or title reads as `""`). */
  predicate Matches(b: Brief, q: string)
    ensures Matches(b, q) ==> |q| <= |b.id| || |q| <= |b.url.GetOr("")| || |q| <= |b.title.GetOr("")|
  {
    Contains(Lower(b.id), q) || Contains(Lower(b.url.GetOr("")), q) || Contains(Lower(b.title.GetOr("")), q)
  }

  /** `briefs.filter(b => Matches(b, q))`. */
  function KeepMatching(briefs: seq<Brief>, q: string): (r: seq<Brief>)
    ensures IsSubsequence(r, briefs)
    ensures forall i | 0 <= i < |r| :: Matches(r[i], q)
    ensures forall i | 0 <= i < |briefs| :: Matches(briefs[i], q) ==> briefs[i] in r
    decreases |briefs|
  {
    if briefs == [] then []
    else
      var init, b := briefs[..|briefs| - 1], briefs[|briefs| - 1];
      var r := KeepMatching(init, q);
      assert init + [b] == briefs;
      SubsequenceSnoc(r, init, b, Matches(b, q));
      if Matches(b, q) then r + [b] else r
  }

  /** The filter keeps every copy of a matching brief and no copy of any other:
      the kept list holds each matching brief as often as the input does. */
  lemma {:induction false} KeepMatchingCount(briefs: seq<Brief>, q: string, x: Brief)
    ensures multiset(KeepMatching(briefs, q))[x] == if Matches(x, q) then multiset(briefs)[x] else 0
    decreases |briefs|
  {
    if briefs != [] {
      var init, b := briefs[..|briefs| - 1], briefs[|briefs| - 1];
      KeepMatchingCount(init, q, x);
      assert init + [b] == briefs;
      var r := KeepMatching(init, q);
      if Matches(b, q) {
        assert multiset(r + [b]) == multiset(r) + multiset{b};
      }
    }
  }

  /** The `filtered` list: everything for a blank query; otherwise the briefs
      matching the query lower-cased but not trimmed. */
  function Filtered(briefs: seq<Brief>, query: string): (r: seq<Brief>)
    ensures IsBlank(query) ==> r == briefs
    ensures IsSubsequence(r, briefs)
    ensures !IsBlank(query) ==> forall b | b in briefs :: b in r <==> Matches(b, Lower(query))
  {
    if IsBlank(query) then
      SubsequenceRefl(briefs);
      briefs
    else
      var r := KeepMatching(briefs, Lower(query));
      SubsequenceMembers(r, briefs);
      r
  }

  /** For a query that is not blank, the shown list holds each brief matching
      the lower-cased query exactly as often as the list does, and no other. */
  lemma FilteredCount(briefs: seq<Brief>, query: string, x: Brief)
    ensures !IsBlank(query) ==>
      multiset(Filtered(briefs, query))[x] == if Matches(x, Lower(query)) then multiset(briefs)[x] else 0
  {
    KeepMatchingCount(briefs, Lower(query), x);
  }

  /** `prev.filter(b => b.id !== id)`. */
  function Without(briefs: seq<Brief>, id: string): (r: seq<Brief>)
    ensures IsSubsequence(r, briefs)
    ensures forall i | 0 <= i < |r| :: r[i].id != id
    ensures forall i | 0 <= i < |briefs| :: briefs[i].id != id ==> briefs[i] in r
    decreases |briefs|
  {
    if briefs == [] then []
    else
      var init, b := briefs[..|briefs| - 1], briefs[|briefs| - 1];
      var r := Without(init, id);
      assert init + [b] == briefs;
      SubsequenceSnoc(r, init, b, b.id != id);
      if b.id != id then r + [b] else r
  }

  /** Deleting keeps every copy of a brief with another id and no copy of one with that id. */
  lemma {:induction false} WithoutCount(briefs: seq<Brief>, id: string, x: Brief)
    ensures multiset(Without(briefs, id))[x] == if x.id != id then multiset(briefs)[x] else 0
    decreases |briefs|
  {
    if briefs != [] {
      var init, b := briefs[..|briefs| - 1], briefs[|briefs| - 1];
      WithoutCount(init, id, x);
      assert init + [b] == briefs;
      var r := Without(init, id);
      if b.id != id {
        assert multiset(r + [b]) == multiset(r) + multiset{b};
      }
    }
  }

  /** Deleting an id no brief has leaves the list as it was. */
  lemma {:induction false} WithoutAbsent(briefs: seq<Brief>, id: string)
    requires forall i | 0 <= i < |briefs| :: briefs[i].id != id
    ensures Without(briefs, id) == briefs
    decreases |briefs|
  {
    if briefs != [] {
      WithoutAbsent(briefs[..|briefs| - 1], id);
      assert briefs[|briefs| - 1..] == [briefs[|briefs| - 1]];
      assert briefs[..|briefs| - 1] + briefs[|briefs| - 1..] == briefs;
    }
  }

  /** Deleting twice is deleting once. */
  lemma WithoutIdempotent(briefs: seq<Brief>, id: string)
    ensures Without(Without(briefs, id), id) == Without(briefs, id)
  {
    WithoutAbsent(Without(briefs, id), id);
  }

  /** The query is matched as typed: a trailing space is part of it. */
  lemma QueryNotTrimmed()
    ensures var b := Brief("ab", None, None, None, None);
      Filtered([b], "ab") == [b] && Filtered([b], "ab ") == []
  {
    var b := Brief("ab", None, None, None, None);
    assert Lower("ab") == "ab";
    assert Lower("ab ") == "ab ";
    assert OccursAt(Lower(b.id), "ab", 0);
    assert !IsBlank("ab") by { assert !IsSpace("ab"[0]); }
    assert !IsBlank("ab ") by { assert !IsSpace("ab "[0]); }
  }

  /** How a load of the list ended. */
  datatype LoadOutcome =
    | Loaded(data: Option<seq<Brief>>)   // `None`: the body was not a JSON array
    | LoadFailed(message: Option<string>)

  /** The page's state: the React `useState` cells it updates through setters. */
  class BriefsView {
    var briefs: seq<Brief>
    var loading: bool
    var error: Option<string>
    var query: string
    var copyingId: Option<string>

    constructor()
      ensures briefs == [] && loading && error.None? && query == "" && copyingId.None?
    {
      briefs := [];
      loading := true;
      error := None;
      query := "";
      copyingId := None;
    }

    /** What the page renders as the list. */
    function Shown(): (r: seq<Brief>)
      reads this
      ensures r == Filtered(briefs, query)
      ensures IsSubsequence(r, briefs)
      ensures IsBlank(query) ==> r == briefs
    {
      Filtered(briefs, query)
    }

    /** Typing in the filter box. */
    method SetQuery(q: string)
      modifies this
      ensures query == q
      ensures briefs == old(briefs) && loading == old(loading) && error == old(error) && copyingId == old(copyingId)
    {
      query := q;
    }

    /** `fetchBriefs` up to the request: loading, with no error shown. */
    method StartLoad()
      modifies this
      ensures loading && error.None?
      ensures briefs == old(briefs) && query == old(query) && copyingId == old(copyingId)
    {
      loading := true;
      error := None;
    }

    /** `fetchBriefs` after the answer: a body that is not an array lists
        nothing; a failure keeps the old list and shows the message. */
    method FinishLoad(outcome: LoadOutcome)
      modifies this
      ensures !loading
      ensures outcome.Loaded? ==> briefs == outcome.data.GetOr([]) && error == old(error)
      ensures outcome.LoadFailed? ==> briefs == old(briefs) && error == Some(outcome.message.GetOr("Failed to load"))
      ensures query == old(query) && copyingId == old(copyingId)
    {
      match outcome {
        case Loaded(data) => briefs := data.GetOr([]);
        case LoadFailed(message) => error := Some(message.GetOr("Failed to load"));
      }
      loading := false;
    }

    /** `onDelete`: `confirmed` is whether the DELETE request answered with an
        ok status; only then is the brief dropped from the list. */
    method Delete(id: string, confirmed: bool)
      modifies this
      ensures confirmed ==> briefs == Without(old(briefs), id)
      ensures !confirmed ==> briefs == old(briefs)
      ensures query == old(query) && loading == old(loading) && error == old(error) && copyingId == old(copyingId)
    {
      if confirmed {
        briefs := Without(briefs, id);
      }
    }

    /** `onCopyId` before the clipboard answers. */
    method StartCopy(id: string)
      modifies this
      ensures copyingId == Some(id)
      ensures briefs == old(briefs) && query == old(query) && loading == old(loading) && error == old(error)
    {
      copyingId := Some(id);
    }

    /** `onCopyId` after the clipboard answers, whatever it answered. */
    method FinishCopy()
      modifies this
      ensures copyingId.None?
      ensures briefs == old(briefs) && query == old(query) && loading == old(loading) && error == old(error)
    {
      copyingId := None;
    }
  }
}
