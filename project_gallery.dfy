/** The project gallery loader, `fetchAndRenderProjectCards` (scripts.js, lines
    49-130): walk the repository's contents listing, fetch every entry whose name
    ends in `.md` one after the other, append a card per document to the grid, and
    on any exception replace the whole grid with one error message.

    Fetching is given, not performed: the listing is a value, and the documents are
    a map from download URL to the text `res.text()` produced; a URL missing from
    the map is a request that rejected. */
module ProjectGallery {
  import opened Outcomes
  import opened JsText
  import opened ProjectCards

  /** One element of the listing: the file's `name` and `download_url`. */
  datatype Entry = Entry(name: string, downloadUrl: string)

  /** What `await res.json()` on the listing request hands the loop. */
  datatype Listing =
    | ListingUnavailable           // the request rejected, or the body is not JSON
    | NotIterable                  // JSON that `for...of` cannot walk, such as an object
    | Entries(entries: seq<Entry>)

  /** The exception that reaches the catch block (which only logs it). */
  datatype Failure =
    | ListingFailed
    | ListingNotIterable
    | DocumentUnavailable(url: string)
    | EmptyDocument(name: string)

  /** The outcome of a load: every card, in order, or the exception that ended it. */
  datatype Gallery = Cards(cards: seq<Card>) | Failed(failure: Failure)

  /** The loop's filter, `file.name.endsWith('.md')`. */
  predicate IsMarkdown(e: Entry)
  {
    EndsWith(e.name, ".md")
  }

  /** A Markdown entry whose document was fetched and has a non-blank line. */
  predicate Loadable(e: Entry, documents: map<string, string>)
  {
    e.downloadUrl in documents && !IsBlank(documents[e.downloadUrl])
  }

  /** The exception an entry that is not loadable raises. */
  function FailureOf(e: Entry, documents: map<string, string>): Failure
  {
    if e.downloadUrl !in documents then DocumentUnavailable(e.downloadUrl)
    else EmptyDocument(e.name)
  }

  /** One iteration of the loop body, applied to what earlier iterations built. */
  function Step(sofar: Gallery, e: Entry, documents: map<string, string>): Gallery
  {
    if sofar.Failed? || !IsMarkdown(e) then sofar
    else if e.downloadUrl !in documents then Failed(DocumentUnavailable(e.downloadUrl))
    else match ExtractCard(e.name, e.downloadUrl, documents[e.downloadUrl])
      case None => Failed(EmptyDocument(e.name))
      case Some(card) => Cards(sofar.cards + [card])
  }

  /** The loop over a listing's entries, as a left fold of `Step`. */
  function CollectCards(entries: seq<Entry>, documents: map<string, string>): Gallery
    decreases |entries|
  {
    if entries == [] then Cards([])
    else Step(CollectCards(entries[..|entries| - 1], documents), entries[|entries| - 1], documents)
  }

  /** The whole load: the listing request, then the loop. */
  function LoadGallery(listing: Listing, documents: map<string, string>): Gallery
  {
    match listing
    case ListingUnavailable => Failed(ListingFailed)
    case NotIterable => Failed(ListingNotIterable)
    case Entries(entries) => CollectCards(entries, documents)
  }

  /** The entries the loop does not skip, in listing order. */
  function MarkdownEntries(entries: seq<Entry>): (md: seq<Entry>)
    ensures |md| <= |entries|
    ensures forall e | e in md :: e in entries && IsMarkdown(e)
    ensures forall e | e in entries && IsMarkdown(e) :: e in md
    decreases |entries|
  {
    if entries == [] then []
    else
      var last := entries[|entries| - 1];
      assert forall e | e in entries :: e in entries[..|entries| - 1] || e == last;
      MarkdownEntries(entries[..|entries| - 1]) + (if IsMarkdown(last) then [last] else [])
  }

  /** The filter of one entry keeps it exactly when its name ends in `.md`. */
  lemma MarkdownEntriesSingle(e: Entry)
    ensures MarkdownEntries([e]) == if IsMarkdown(e) then [e] else []
  {
    assert [e][..0] == [];
  }

  /** The filter keeps listing order: filtering two runs of entries one after the
      other is filtering each and concatenating. */
  lemma {:induction false} MarkdownEntriesAppend(a: seq<Entry>, b: seq<Entry>)
    ensures MarkdownEntries(a + b) == MarkdownEntries(a) + MarkdownEntries(b)
    decreases |b|
  {
    if b == [] {
      assert a + b == a;
    } else {
      var init := b[..|b| - 1];
      var last := b[|b| - 1];
      var kept := if IsMarkdown(last) then [last] else [];
      assert (a + b)[..|a + b| - 1] == a + init;
      assert (a + b)[|a + b| - 1] == last;
      assert MarkdownEntries(a + b) == MarkdownEntries(a + init) + kept;
      assert MarkdownEntries(b) == MarkdownEntries(init) + kept;
      MarkdownEntriesAppend(a, init);
      assert (MarkdownEntries(a) + MarkdownEntries(init)) + kept
          == MarkdownEntries(a) + (MarkdownEntries(init) + kept);
    }
  }

  /** Entries whose names do not end in `.md` change nothing: the load over the
      listing equals the load over its Markdown entries alone. */
  lemma {:induction false} NonMarkdownSkipped(entries: seq<Entry>, documents: map<string, string>)
    ensures CollectCards(entries, documents) == CollectCards(MarkdownEntries(entries), documents)
    decreases |entries|
  {
    if entries != [] {
      var init := entries[..|entries| - 1];
      var last := entries[|entries| - 1];
      var md := MarkdownEntries(init);
      NonMarkdownSkipped(init, documents);
      if IsMarkdown(last) {
        assert MarkdownEntries(entries) == md + [last];
        assert (md + [last])[..|md|] == md;
        assert CollectCards(md + [last], documents) == Step(CollectCards(md, documents), last, documents);
      } else {
        assert MarkdownEntries(entries) == md + [] == md;
      }
    }
  }

  /** The cards line up with the Markdown entries: one per entry, in the same
      order, each extracted from the document fetched at that entry's URL. */
  ghost predicate CardsMatch(cards: seq<Card>, md: seq<Entry>, documents: map<string, string>)
  {
    && |cards| == |md|
    && forall i | 0 <= i < |cards| ::
         && md[i].downloadUrl in documents
         && Some(cards[i]) == ExtractCard(md[i].name, md[i].downloadUrl, documents[md[i].downloadUrl])
  }

  /** The load succeeds exactly when every Markdown entry is loadable. */
  lemma {:induction false} CollectCardsSucceedsIff(entries: seq<Entry>, documents: map<string, string>)
    ensures CollectCards(entries, documents).Cards? <==>
      forall e | e in entries && IsMarkdown(e) :: Loadable(e, documents)
    decreases |entries|
  {
    if entries != [] {
      var init := entries[..|entries| - 1];
      var last := entries[|entries| - 1];
      CollectCardsSucceedsIff(init, documents);
      assert forall e | e in entries :: e in init || e == last;
      if IsMarkdown(last) && last.downloadUrl in documents {
        NoKeptLinesIffBlank(documents[last.downloadUrl]);
      }
    }
  }

  /** A successful load has one card per Markdown entry, in listing order, each
      extracted from the document fetched at that entry's URL. */
  lemma {:induction false} CollectCardsInOrder(entries: seq<Entry>, documents: map<string, string>)
    requires CollectCards(entries, documents).Cards?
    ensures CardsMatch(CollectCards(entries, documents).cards, MarkdownEntries(entries), documents)
    decreases |entries|
  {
    if entries != [] {
      var init := entries[..|entries| - 1];
      var last := entries[|entries| - 1];
      var sofar := CollectCards(init, documents);
      assert sofar.Cards?;
      CollectCardsInOrder(init, documents);
      if IsMarkdown(last) {
        var md := MarkdownEntries(init);
        var cards := CollectCards(entries, documents).cards;
        assert MarkdownEntries(entries) == md + [last];
        assert cards[..|sofar.cards|] == sofar.cards;
        assert forall i | 0 <= i < |md| :: (md + [last])[i] == md[i];
      }
    }
  }

  /** Every card of a successful load carries the URL of the entry it was fetched
      for, which is what its "View Full" button opens. */
  lemma CardsCarryFetchedUrl(entries: seq<Entry>, documents: map<string, string>)
    requires CollectCards(entries, documents).Cards?
    ensures var cards := CollectCards(entries, documents).cards;
      var md := MarkdownEntries(entries);
      |cards| == |md| && forall i | 0 <= i < |cards| :: cards[i].url == md[i].downloadUrl
  {
    CollectCardsInOrder(entries, documents);
  }

  /** `k` is the first Markdown entry that is not loadable. */
  ghost predicate FirstUnloadable(md: seq<Entry>, k: nat, documents: map<string, string>)
  {
    && k < |md|
    && !Loadable(md[k], documents)
    && forall j | 0 <= j < k :: Loadable(md[j], documents)
  }

  /** A failed load names the first Markdown entry, in listing order, that is not
      loadable: every Markdown entry before it loaded. */
  lemma {:induction false} FailureIsFirst(entries: seq<Entry>, documents: map<string, string>)
    requires CollectCards(entries, documents).Failed?
    ensures exists k: nat :: (
      && FirstUnloadable(MarkdownEntries(entries), k, documents)
      && CollectCards(entries, documents).failure == FailureOf(MarkdownEntries(entries)[k], documents))
    decreases |entries|
  {
    var init := entries[..|entries| - 1];
    var last := entries[|entries| - 1];
    var md := MarkdownEntries(entries);
    var mdInit := MarkdownEntries(init);
    assert md[..|mdInit|] == mdInit;
    if CollectCards(init, documents).Failed? {
      FailureIsFirst(init, documents);
      var k: nat :| FirstUnloadable(mdInit, k, documents)
        && CollectCards(init, documents).failure == FailureOf(mdInit[k], documents);
      assert md[k] == mdInit[k];
      assert FirstUnloadable(md, k, documents);
    } else {
      CollectCardsSucceedsIff(init, documents);
      assert IsMarkdown(last);
      assert md == mdInit + [last];
      var k := |mdInit|;
      assert forall j | 0 <= j < k :: md[j] == mdInit[j] && md[j] in init;
      if last.downloadUrl in documents {
        NoKeptLinesIffBlank(documents[last.downloadUrl]);
      }
      assert FirstUnloadable(md, k, documents);
    }
  }

  /** Once an iteration has thrown, no later entry matters: a failure on a prefix
      is the failure of the whole listing. */
  lemma {:induction false} FailureIsFinal(entries: seq<Entry>, n: nat, documents: map<string, string>)
    requires n <= |entries|
    requires CollectCards(entries[..n], documents).Failed?
    ensures CollectCards(entries, documents) == CollectCards(entries[..n], documents)
    decreases |entries| - n
  {
    if n < |entries| {
      assert entries[..n + 1][..n] == entries[..n];
      FailureIsFinal(entries, n + 1, documents);
    } else {
      assert entries[..n] == entries;
    }
  }

  /** The catch block's markup, which replaces everything in the grid. */
  const ErrorMarkup: string := "<p class=\"error\">Couldn't load projects. Try again later.</p>"

  /** A child of the `.projects-grid` container: markup the page already had (or
      the error message), or a project card the loader appended. */
  datatype Element = Markup(html: string) | ProjectCard(card: Card)

  function CardElements(cards: seq<Card>): seq<Element>
  {
    seq(|cards|, i requires 0 <= i < |cards| => ProjectCard(cards[i]))
  }

  /** The fold over one more entry is one more step. */
  lemma FoldOneMore(entries: seq<Entry>, i: nat, documents: map<string, string>)
    requires i < |entries|
    ensures CollectCards(entries[..i + 1], documents)
         == Step(CollectCards(entries[..i], documents), entries[i], documents)
  {
    assert entries[..i + 1][..i] == entries[..i];
  }

  lemma CardElementsAppend(cards: seq<Card>, card: Card)
    ensures CardElements(cards + [card]) == CardElements(cards) + [ProjectCard(card)]
  {
  }

  /** The grid after a load: the cards appended after what was there, or, after
      any exception, the error message alone with no card of the load left. */
  function Render(before: seq<Element>, gallery: Gallery): seq<Element>
  {
    match gallery
    case Cards(cards) => before + CardElements(cards)
    case Failed(_) => [Markup(ErrorMarkup)]
  }

  /** The `.projects-grid` container that the loader appends cards to. */
  class ProjectsGrid {
    var children: seq<Element>

    constructor (initial: seq<Element>)
      ensures children == initial
    {
      children := initial;
    }

    /** `container.appendChild(card)`. */
    method AppendCard(card: Card)
      modifies this
      ensures children == old(children) + [ProjectCard(card)]
    {
      children := children + [ProjectCard(card)];
    }

    /** `container.innerHTML = ...` in the catch block: everything, including the
        cards appended so far, is replaced by the error message. */
    method ShowError()
      modifies this
      ensures children == [Markup(ErrorMarkup)]
    {
      children := [Markup(ErrorMarkup)];
    }

    /** Loads every Markdown document of the listing, in order, appending a card
        for each; any exception replaces the grid's contents with the error. */
    method FetchAndRenderProjectCards(listing: Listing, documents: map<string, string>)
      modifies this
      ensures children == Render(old(children), LoadGallery(listing, documents))
    {
      match listing {
        case ListingUnavailable =>
          ShowError();
        case NotIterable =>
          ShowError();
        case Entries(files) =>
          var i := 0;
          while i < |files|
            invariant 0 <= i <= |files|
            invariant CollectCards(files[..i], documents).Cards?
            invariant children == old(children) + CardElements(CollectCards(files[..i], documents).cards)
          {
            var file := files[i];
            ghost var sofar := CollectCards(files[..i], documents);
            FoldOneMore(files, i, documents);
            if EndsWith(file.name, ".md") {
              if file.downloadUrl !in documents {
                FailureIsFinal(files, i + 1, documents);
                ShowError();
                return;
              }
              var card := ExtractCard(file.name, file.downloadUrl, documents[file.downloadUrl]);
              if card.None? {
                FailureIsFinal(files, i + 1, documents);
                ShowError();
                return;
              }
              CardElementsAppend(sofar.cards, card.value);
              AppendCard(card.value);
            }
            i := i + 1;
          }
          assert files[..i] == files;
      }
    }
  }
}
