/** The quote collection of the dashboard page and the four transforms its
    handlers apply to it: append, update by id, delete by id and search.
    Each is a function of the current list; the page's state object in
    module IndexPage replaces its list with their results. */
module Quotes {
  import opened Seqs
  import opened Text

  datatype Quote = Quote(id: int, text: string, author: string, category: string)

  /** The add/edit form record: a quote without an id. */
  datatype Form = Form(text: string, author: string, category: string)

  const EmptyForm := Form("", "", "")

  /** The two quotes the page starts with, and resets to on an empty search. */
  function InitialQuotes(): (r: seq<Quote>)
    ensures |r| == 2 && r[0].id == 1 && r[1].id == 2
  {
    [ Quote(1, "The only impossible journey is the one you never begin.", "Tony Robbins", "Motivation"),
      Quote(2, "Life is what happens when you're busy making other plans.", "John Lennon", "Life") ]
  }

  ghost predicate HasId(qs: seq<Quote>, id: int)
  {
    exists i :: 0 <= i < |qs| && qs[i].id == id
  }

  ghost predicate UniqueIds(qs: seq<Quote>)
  {
    forall i, j :: 0 <= i < j < |qs| ==> qs[i].id != qs[j].id
  }

  /** The form's fields under the given id (the object spread `{id, ...form}`). */
  function WithId(id: int, f: Form): (q: Quote)
  {
    Quote(id, f.text, f.author, f.category)
  }

  // ---------------------------------------------------------------- add

  /** Append the form as a new quote whose id is the list's length plus one. */
  function Add(qs: seq<Quote>, f: Form): (r: seq<Quote>)
    ensures |r| == |qs| + 1
    ensures r[..|qs|] == qs
    ensures r[|qs|].id == |qs| + 1
    ensures r[|qs|].text == f.text && r[|qs|].author == f.author && r[|qs|].category == f.category
  {
    qs + [WithId(|qs| + 1, f)]
  }

  /** From a list whose ids are 1..n in order, adding keeps ids 1..n+1. */
  lemma AddKeepsConsecutiveIds(qs: seq<Quote>, f: Form)
    requires forall i :: 0 <= i < |qs| ==> qs[i].id == i + 1
    ensures forall i :: 0 <= i < |qs| + 1 ==> Add(qs, f)[i].id == i + 1
    ensures UniqueIds(Add(qs, f))
  {
  }

  /** Adding keeps ids unique exactly when no quote already holds the new id. */
  lemma AddUniqueIds(qs: seq<Quote>, f: Form)
    requires UniqueIds(qs)
    ensures UniqueIds(Add(qs, f)) <==> !HasId(qs, |qs| + 1)
  {
    var r := Add(qs, f);
    if HasId(qs, |qs| + 1) {
      var i :| 0 <= i < |qs| && qs[i].id == |qs| + 1;
      assert r[i].id == r[|qs|].id;
    }
  }

  // ---------------------------------------------------------------- update

  /** The form's fields replace those of a quote with the given id; the
      quote keeps its id (the spread `{...q, ...form}`, where the form has
      no id). */
  function Overwrite(id: int, f: Form): Quote -> Quote
  {
    (q: Quote) => if q.id == id then WithId(q.id, f) else q
  }

  /** Every quote with the given id takes the form's fields. */
  function Update(qs: seq<Quote>, id: int, f: Form): (r: seq<Quote>)
    ensures |r| == |qs|
    ensures forall i :: 0 <= i < |qs| ==> r[i].id == qs[i].id
    ensures forall i :: 0 <= i < |qs| && qs[i].id != id ==> r[i] == qs[i]
    ensures forall i :: 0 <= i < |qs| && qs[i].id == id ==>
              r[i].text == f.text && r[i].author == f.author && r[i].category == f.category
  {
    Map(qs, Overwrite(id, f))
  }

  /** An id no quote holds leaves the list unchanged. */
  lemma UpdateAbsent(qs: seq<Quote>, id: int, f: Form)
    requires !HasId(qs, id)
    ensures Update(qs, id, f) == qs
  {
  }

  /** Updating keeps the ids, so it keeps them unique. */
  lemma UpdateUniqueIds(qs: seq<Quote>, id: int, f: Form)
    ensures UniqueIds(Update(qs, id, f)) <==> UniqueIds(qs)
  {
  }

  /** Updating twice with the same id and form is updating once. */
  lemma UpdateIdempotent(qs: seq<Quote>, id: int, f: Form)
    ensures Update(Update(qs, id, f), id, f) == Update(qs, id, f)
  {
  }

  // ---------------------------------------------------------------- delete

  function KeepsOtherIds(id: int): Quote -> bool
  {
    (q: Quote) => q.id != id
  }

  /** Drop every quote with the given id. */
  function Delete(qs: seq<Quote>, id: int): (r: seq<Quote>)
    ensures !HasId(r, id)
    ensures forall q :: q in r <==> q in qs && q.id != id
    ensures IsSubsequence(r, qs)
    ensures forall q :: multiset(r)[q] == if q.id == id then 0 else multiset(qs)[q]
  {
    var r := Filter(qs, KeepsOtherIds(id));
    FilterIsSubsequence(qs, KeepsOtherIds(id));
    assert forall q :: multiset(r)[q] == if q.id == id then 0 else multiset(qs)[q] by {
      forall q ensures multiset(r)[q] == if q.id == id then 0 else multiset(qs)[q] {
        FilterCount(qs, KeepsOtherIds(id), q);
      }
    }
    assert forall i :: 0 <= i < |r| ==> r[i] in r;
    r
  }

  /** Deleting an id no quote holds leaves the list unchanged; deleting one
      that is present shortens it. */
  lemma DeleteAbsent(qs: seq<Quote>, id: int)
    ensures Delete(qs, id) == qs <==> !HasId(qs, id)
  {
    FilterAll(qs, KeepsOtherIds(id));
    if HasId(qs, id) {
      var i :| 0 <= i < |qs| && qs[i].id == id;
      assert qs[i] in qs;
    }
  }

  /** Deleting the same id twice is deleting it once. */
  lemma DeleteIdempotent(qs: seq<Quote>, id: int)
    ensures Delete(Delete(qs, id), id) == Delete(qs, id)
  {
    FilterIdempotent(qs, KeepsOtherIds(id));
  }

  /** Deleting keeps unique ids unique. */
  lemma DeleteUniqueIds(qs: seq<Quote>, id: int)
    requires UniqueIds(qs)
    ensures UniqueIds(Delete(qs, id))
  {
    SubsequenceUniqueIds(Delete(qs, id), qs);
  }

  lemma {:induction false} SubsequenceUniqueIds(r: seq<Quote>, s: seq<Quote>)
    requires IsSubsequence(r, s) && UniqueIds(s)
    ensures UniqueIds(r)
    decreases |s|
  {
    if r != [] {
      assert UniqueIds(s[1..]) by {
        forall i, j | 0 <= i < j < |s[1..]| ensures s[1..][i].id != s[1..][j].id {
          assert s[1..][i] == s[i + 1] && s[1..][j] == s[j + 1];
        }
      }
      if r[0] == s[0] && IsSubsequence(r[1..], s[1..]) {
        SubsequenceUniqueIds(r[1..], s[1..]);
        forall q | q in r[1..] ensures q in s[1..] {
          SubsequenceMembers(r[1..], s[1..], q);
        }
        forall j | 0 < j < |r| ensures r[0].id != r[j].id {
          assert r[j] == r[1..][j - 1];
          assert r[j] in s[1..];
          var k :| 0 <= k < |s[1..]| && s[1..][k] == r[j];
          assert s[k + 1] == r[j];
        }
      } else {
        SubsequenceUniqueIds(r, s[1..]);
      }
    }
  }

  /** With unique ids, deleting an id that is present removes exactly one
      quote. */
  lemma DeleteRemovesOne(qs: seq<Quote>, id: int)
    requires UniqueIds(qs) && HasId(qs, id)
    ensures |Delete(qs, id)| == |qs| - 1
  {
    var i :| 0 <= i < |qs| && qs[i].id == id;
    var p := KeepsOtherIds(id);
    var before, after := qs[..i], qs[i + 1..];
    assert qs == before + ([qs[i]] + after);
    FilterAppend(before, [qs[i]] + after, p);
    FilterAppend([qs[i]], after, p);
    assert [qs[i]][1..] == [];
    assert Filter([qs[i]], p) == [];
    OnlyHolderOfId(qs, i);
    DeleteAbsent(before, id);
    DeleteAbsent(after, id);
  }

  /** With unique ids, no quote before or after position `i` shares its id. */
  lemma OnlyHolderOfId(qs: seq<Quote>, i: int)
    requires UniqueIds(qs) && 0 <= i < |qs|
    ensures !HasId(qs[..i], qs[i].id) && !HasId(qs[i + 1..], qs[i].id)
  {
  }

  /** Deleting the id a fresh add just assigned undoes the add exactly when
      no quote already held that id. */
  lemma DeleteAddRoundTrip(qs: seq<Quote>, f: Form)
    ensures Delete(Add(qs, f), |qs| + 1) == qs <==> !HasId(qs, |qs| + 1)
  {
    var p := KeepsOtherIds(|qs| + 1);
    FilterAppend(qs, [WithId(|qs| + 1, f)], p);
    assert Filter([WithId(|qs| + 1, f)], p) == [] by {
      assert [WithId(|qs| + 1, f)][1..] == [];
    }
    assert Delete(Add(qs, f), |qs| + 1) == Delete(qs, |qs| + 1);
    DeleteAbsent(qs, |qs| + 1);
  }

  /** Ids assigned from the length collide after a delete: removing the
      first initial quote and adding one leaves two quotes with id 2. */
  lemma DeleteThenAddDuplicatesId(f: Form)
    ensures UniqueIds(InitialQuotes())
    ensures var qs := Add(Delete(InitialQuotes(), 1), f);
              |qs| == 2 && qs[0].id == 2 && qs[1].id == 2 && !UniqueIds(qs)
  {
    var init := InitialQuotes();
    var p := KeepsOtherIds(1);
    assert init[1..][1..] == [];
    assert Filter(init, p) == [init[1]];
  }

  // ---------------------------------------------------------------- search

  /** The search criterion: the lowered query occurs in the lowered text,
      or the author is non-empty and the lowered query occurs in the
      lowered author. */
  predicate Matches(q: Quote, query: string)
  {
    Contains(Lower(q.text), Lower(query)) ||
    (q.author != "" && Contains(Lower(q.author), Lower(query)))
  }

  function MatchesQuery(query: string): Quote -> bool
  {
    (q: Quote) => Matches(q, query)
  }

  /** A non-empty query narrows the current list to the matching quotes;
      an empty query restores the initial quotes. */
  function Search(qs: seq<Quote>, query: string): (r: seq<Quote>)
    ensures query == "" ==> r == InitialQuotes()
    ensures query != "" ==> IsSubsequence(r, qs)
    ensures query != "" ==> forall q :: q in r <==> q in qs && Matches(q, query)
    ensures query != "" ==> forall q :: multiset(r)[q] == if Matches(q, query) then multiset(qs)[q] else 0
  {
    if query == "" then InitialQuotes()
    else
      var r := Filter(qs, MatchesQuery(query));
      FilterIsSubsequence(qs, MatchesQuery(query));
      assert forall q :: multiset(r)[q] == if Matches(q, query) then multiset(qs)[q] else 0 by {
        forall q ensures multiset(r)[q] == if Matches(q, query) then multiset(qs)[q] else 0 {
          FilterCount(qs, MatchesQuery(query), q);
        }
      }
      r
  }

  /** Searching filters the current list, so a second search narrows the
      first one's result further: it keeps the order and only quotes that
      match both queries. */
  lemma SearchNarrows(qs: seq<Quote>, first: string, second: string)
    requires first != "" && second != ""
    ensures IsSubsequence(Search(Search(qs, first), second), Search(qs, first))
    ensures IsSubsequence(Search(Search(qs, first), second), qs)
    ensures forall q :: q in Search(Search(qs, first), second) <==>
              q in qs && Matches(q, first) && Matches(q, second)
  {
    SubsequenceTransitive(Search(Search(qs, first), second), Search(qs, first), qs);
  }

  /** Searching for an empty query gives the same list whatever was shown. */
  lemma SearchEmptyForgetsList(qs: seq<Quote>, other: seq<Quote>)
    ensures Search(qs, "") == Search(other, "") == InitialQuotes()
  {
  }

  /** Searching twice for the same query is searching once. */
  lemma SearchIdempotent(qs: seq<Quote>, query: string)
    ensures Search(Search(qs, query), query) == Search(qs, query)
  {
    if query != "" {
      FilterIdempotent(qs, MatchesQuery(query));
    }
  }

  /** On two quotes where only the second matches, a search keeps just the
      second. */
  lemma SearchKeepsSecondOfTwo(qs: seq<Quote>, query: string)
    requires |qs| == 2 && query != ""
    requires !Matches(qs[0], query) && Matches(qs[1], query)
    ensures Search(qs, query) == [qs[1]]
  {
    assert qs[1..][1..] == [];
    assert Filter(qs, MatchesQuery(query)) == [qs[1]];
  }

  /** Ids assigned from the length also collide after a narrowing search:
      when a query matches only the second initial quote, searching and then
      adding leaves two quotes with id 2. */
  lemma SearchThenAddDuplicatesId(query: string, f: Form)
    requires query != ""
    requires !Matches(InitialQuotes()[0], query) && Matches(InitialQuotes()[1], query)
    ensures var qs := Add(Search(InitialQuotes(), query), f);
              |qs| == 2 && qs[0].id == 2 && qs[1].id == 2 && !UniqueIds(qs)
  {
    SearchKeepsSecondOfTwo(InitialQuotes(), query);
  }

  /** The search ignores the case of the query. */
  lemma SearchIgnoresQueryCase(qs: seq<Quote>, query: string)
    ensures Search(qs, Lower(query)) == Search(qs, query)
  {
    LowerIdempotent(query);
    FilterCongruent(qs, MatchesQuery(Lower(query)), MatchesQuery(query));
  }
}
