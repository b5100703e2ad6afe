/**
 * The page table behind `prisma.page.create`: records keyed by slug, with a
 * uniqueness constraint on the slug and ids issued by the store. Every other
 * way the insert can fail is one input, `outage`: an unreachable database,
 * and also a rejection that depends on the data sent, which the model does
 * not tie to the request.
 */
module Store {
  import opened Wrappers
  import opened Json

  /** A stored page. `components` and `metadata` are kept as sent. */
  datatype Page = Page(id: nat, slug: string, components: seq<Value>, metadata: Option<Value>)

  datatype StoreState = StoreState(pages: map<string, Page>, nextId: nat)

  /** What `create` reports: the new row, a violated unique constraint on
      the slug, or some other failure. */
  datatype StoreResult = Created(page: Page) | UniqueViolation | OtherFailure

  /** Every page sits under its own slug, and ids are distinct and issued
      below the counter. */
  predicate WellFormed(st: StoreState)
  {
    && (forall s :: s in st.pages ==> st.pages[s].slug == s && st.pages[s].id < st.nextId)
    && (forall s, t :: s in st.pages && t in st.pages && s != t ==> st.pages[s].id != st.pages[t].id)
  }

  /** Insert-if-absent: a failed insert leaves the table as it was. */
  function Insert(st: StoreState, slug: string, components: seq<Value>, metadata: Option<Value>, outage: bool)
    : (r: (StoreResult, StoreState))
    ensures r.0.Created? <==> !outage && slug !in st.pages
    ensures r.0.UniqueViolation? <==> !outage && slug in st.pages
    ensures !r.0.Created? ==> r.1 == st
    ensures r.0.Created? ==> r.1.pages.Keys == st.pages.Keys + {slug} && r.1.pages[slug] == r.0.page
    ensures r.0.Created? ==> r.0.page.slug == slug && r.0.page.components == components && r.0.page.metadata == metadata
  {
    if outage then (OtherFailure, st)
    else if slug in st.pages then (UniqueViolation, st)
    else
      var page := Page(st.nextId, slug, components, metadata);
      (Created(page), StoreState(st.pages[slug := page], st.nextId + 1))
  }

  /** A successful insert keeps every other page and gives the new one a
      fresh id; the table stays well formed. */
  lemma InsertPreservesWellFormed(st: StoreState, slug: string, components: seq<Value>, metadata: Option<Value>, outage: bool)
    requires WellFormed(st)
    ensures WellFormed(Insert(st, slug, components, metadata, outage).1)
    ensures var r := Insert(st, slug, components, metadata, outage);
      r.0.Created? ==>
        (forall s :: s in st.pages ==> r.1.pages[s] == st.pages[s] && r.0.page.id != st.pages[s].id)
  {
  }

  /** The store as an object updated in place, as the database client is. */
  class PageStore {
    var pages: map<string, Page>
    var nextId: nat

    function State(): StoreState
      reads this
    {
      StoreState(pages, nextId)
    }

    ghost predicate Valid()
      reads this
    {
      WellFormed(State())
    }

    constructor ()
      ensures Valid() && State() == StoreState(map[], 0)
    {
      pages := map[];
      nextId := 0;
    }

    /** `prisma.page.create({ data: { slug, components, metadata } })`. */
    method Create(slug: string, components: seq<Value>, metadata: Option<Value>, outage: bool) returns (r: StoreResult)
      requires Valid()
      modifies this
      ensures Valid()
      ensures (r, State()) == Insert(old(State()), slug, components, metadata, outage)
    {
      InsertPreservesWellFormed(State(), slug, components, metadata, outage);
      if outage {
        return OtherFailure;
      }
      if slug in pages {
        return UniqueViolation;
      }
      var page := Page(nextId, slug, components, metadata);
      pages := pages[slug := page];
      nextId := nextId + 1;
      r := Created(page);
    }
  }
}
