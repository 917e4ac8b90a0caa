/** The state of the dashboard page component and its event handlers. Each
    handler replaces state fields wholesale with values computed by the
    transforms of module Quotes. */
module IndexPage {
  import opened Quotes

  datatype Option<T> = None | Some(value: T)

  class QuoteStore {
    /** The list shown on the page. */
    var quotes: seq<Quote>
    /** The quote whose edit button was last pressed (null until then). */
    var currentQuote: Option<Quote>
    /** The add/edit form's fields. */
    var newQuote: Form
    /** The search box's contents. */
    var searchQuery: string

    /** The page's initial state. */
    constructor ()
      ensures quotes == InitialQuotes()
      ensures currentQuote == None && newQuote == EmptyForm && searchQuery == ""
    {
      quotes := InitialQuotes();
      currentQuote := None;
      newQuote := EmptyForm;
      searchQuery := "";
    }

    /** The add button: append the form as a new quote and clear the form. */
    method AddQuote()
      modifies this
      ensures quotes == Add(old(quotes), old(newQuote))
      ensures newQuote == EmptyForm
      ensures currentQuote == old(currentQuote) && searchQuery == old(searchQuery)
    {
      quotes := Add(quotes, newQuote);
      newQuote := EmptyForm;
    }

    /** The update button: overwrite every quote carrying the edited quote's
        id with the form, and clear the form. With no quote being edited the
        id lookup throws as soon as one list element is visited, so nothing
        changes then unless the list is empty. */
    method UpdateQuote() returns (threw: bool)
      modifies this
      ensures threw <==> old(currentQuote).None? && old(quotes) != []
      ensures threw ==> quotes == old(quotes) && newQuote == old(newQuote)
      ensures !threw ==> newQuote == EmptyForm
      ensures !threw && old(currentQuote).Some? ==>
                quotes == Update(old(quotes), old(currentQuote).value.id, old(newQuote))
      ensures !threw && old(currentQuote).None? ==> quotes == old(quotes) == []
      ensures currentQuote == old(currentQuote) && searchQuery == old(searchQuery)
    {
      match currentQuote
      case Some(edited) =>
        threw := false;
        quotes := Update(quotes, edited.id, newQuote);
        newQuote := EmptyForm;
      case None =>
        threw := quotes != [];
        if !threw {
          newQuote := EmptyForm;
        }
    }

    /** A card's delete button: drop every quote with the card's id. */
    method DeleteQuote(id: int)
      modifies this
      ensures quotes == Delete(old(quotes), id)
      ensures currentQuote == old(currentQuote) && newQuote == old(newQuote)
      ensures searchQuery == old(searchQuery)
    {
      quotes := Delete(quotes, id);
    }

    /** The search button: narrow the shown list by the query, or restore
        the initial quotes when the query is empty. */
    method SearchQuotes()
      modifies this
      ensures quotes == Search(old(quotes), searchQuery)
      ensures currentQuote == old(currentQuote) && newQuote == old(newQuote)
      ensures searchQuery == old(searchQuery)
    {
      quotes := Search(quotes, searchQuery);
    }

    /** A card's edit button: remember the quote and load its fields into
        the form. */
    method BeginEdit(q: Quote)
      modifies this
      ensures currentQuote == Some(q)
      ensures newQuote == Form(q.text, q.author, q.category)
      ensures quotes == old(quotes) && searchQuery == old(searchQuery)
    {
      currentQuote := Some(q);
      newQuote := Form(q.text, q.author, q.category);
    }

    /** Typing in the form's text area. */
    method SetText(text: string)
      modifies this
      ensures newQuote == old(newQuote).(text := text)
      ensures quotes == old(quotes) && currentQuote == old(currentQuote)
      ensures searchQuery == old(searchQuery)
    {
      newQuote := newQuote.(text := text);
    }

    /** Typing in the form's author field. */
    method SetAuthor(author: string)
      modifies this
      ensures newQuote == old(newQuote).(author := author)
      ensures quotes == old(quotes) && currentQuote == old(currentQuote)
      ensures searchQuery == old(searchQuery)
    {
      newQuote := newQuote.(author := author);
    }

    /** Choosing in the form's category selector. */
    method SetCategory(category: string)
      modifies this
      ensures newQuote == old(newQuote).(category := category)
      ensures quotes == old(quotes) && currentQuote == old(currentQuote)
      ensures searchQuery == old(searchQuery)
    {
      newQuote := newQuote.(category := category);
    }

    /** Typing in the search box. */
    method SetSearchQuery(query: string)
      modifies this
      ensures searchQuery == query
      ensures quotes == old(quotes) && currentQuote == old(currentQuote) && newQuote == old(newQuote)
    {
      searchQuery := query;
    }
  }

  /** A session on a fresh page: delete the first quote, then add one. The
      two quotes left both carry id 2. */
  method DeleteThenAddSession(text: string) returns (ids: seq<int>)
    ensures ids == [2, 2]
  {
    var page := new QuoteStore();
    page.DeleteQuote(1);
    page.SetText(text);
    page.AddQuote();
    DeleteThenAddDuplicatesId(Form(text, "", ""));
    ids := [page.quotes[0].id, page.quotes[1].id];
  }

  /** A session on a fresh page: search twice, then clear the search box and
      search again. The second search only narrows the first, and the last
      one brings back the initial quotes. */
  method SearchSession(first: string, second: string) returns (narrowed: seq<Quote>, restored: seq<Quote>)
    requires first != "" && second != ""
    ensures forall q :: q in narrowed <==> q in InitialQuotes() && Matches(q, first) && Matches(q, second)
    ensures restored == InitialQuotes()
  {
    var page := new QuoteStore();
    page.SetSearchQuery(first);
    page.SearchQuotes();
    page.SetSearchQuery(second);
    page.SearchQuotes();
    narrowed := page.quotes;
    SearchNarrows(InitialQuotes(), first, second);
    page.SetSearchQuery("");
    page.SearchQuotes();
    restored := page.quotes;
  }
}
