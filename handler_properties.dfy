/**
 * What the POST handler promises, stated against independent definitions
 * of an acceptable slug and a well-shaped block, and about the store.
 */
module PagesApiProperties {
  import opened Wrappers
  import opened Json
  import opened Validation
  import opened Store
  import opened PagesApi

  /** A slug the handler lets through: 1 to 100 letters, digits, hyphens or
      underscores, and no reserved word in any mix of case. */
  predicate AcceptableSlug(s: string)
  {
    && 1 <= |s| <= 100
    && (forall i :: 0 <= i < |s| ==> IsSlugChar(s[i]))
    && (forall w :: w in ReservedSlugs ==> !EqualIgnoringCase(s, w))
  }

  /** A block with a known `type` string and an object or array `props`. */
  predicate WellShapedBlock(c: Value)
  {
    && c.Obj?
    && "type" in c.fields && c.fields["type"].Str? && c.fields["type"].s in ValidComponentTypes
    && "props" in c.fields && (c.fields["props"].Obj? || c.fields["props"].Arr?)
  }

  lemma SlugChecksIff(s: string)
    ensures !IsReserved(s) && !(s == "" || !ValidateSlug(s)) <==> AcceptableSlug(s)
  {
    ValidateSlugIff(s);
    IsReservedIff(s);
  }

  lemma BlocksIff(cs: seq<Value>)
    ensures InvalidIndices(cs) == [] <==> forall k :: 0 <= k < |cs| ==> WellShapedBlock(cs[k])
  {
    InvalidIndicesEmptyIff(cs);
    forall k | 0 <= k < |cs| {
      ValidateComponentIff(cs[k]);
    }
  }

  /** A request passes every check exactly when its slug is acceptable and
      it carries a non-empty array of well-shaped blocks; the accepted page
      is the request's own slug, blocks and metadata. */
  lemma ValidateAcceptIff(body: Body)
    ensures Validate(body).Accept? <==>
      && body.Parsed?
      && SlugOf(body.json).Some? && AcceptableSlug(SlugOf(body.json).value)
      && ComponentsOf(body.json).Some? && |ComponentsOf(body.json).value| > 0
      && (forall k :: 0 <= k < |ComponentsOf(body.json).value| ==> WellShapedBlock(ComponentsOf(body.json).value[k]))
    ensures Validate(body).Accept? ==>
      Validate(body) == Accept(SlugOf(body.json).value, ComponentsOf(body.json).value, Property(body.json, "metadata"))
  {
    if body.Parsed? && SlugOf(body.json).Some? {
      SlugChecksIff(SlugOf(body.json).value);
      if ComponentsOf(body.json).Some? {
        BlocksIff(ComponentsOf(body.json).value);
      }
    }
  }

  /** Each error code of the validation sequence, with the exact condition
      that produces it; the checks run in the order json, slug present,
      reserved, format, components, blocks. */
  lemma ValidateErrorCodes(body: Body)
    ensures Validate(body) == Reject(ApiError(InvalidJson, NoDetails)) <==> body.Unparseable?
    ensures Validate(body) == Reject(ApiError(InternalError, NoDetails)) <==>
      body.Parsed? && SlugOf(body.json).None?
    ensures (Validate(body).Reject? && Validate(body).error.code == ReservedSlug) <==>
      body.Parsed? && SlugOf(body.json).Some? &&
      exists w :: w in ReservedSlugs && EqualIgnoringCase(SlugOf(body.json).value, w)
    ensures (Validate(body).Reject? && Validate(body).error.code == InvalidSlug) <==>
      body.Parsed? && SlugOf(body.json).Some? && !IsReserved(SlugOf(body.json).value) &&
      !(1 <= |SlugOf(body.json).value| <= 100 &&
        forall i :: 0 <= i < |SlugOf(body.json).value| ==> IsSlugChar(SlugOf(body.json).value[i]))
    ensures (Validate(body).Reject? && Validate(body).error.code == InvalidComponents) <==>
      body.Parsed? && SlugOf(body.json).Some? && AcceptableSlug(SlugOf(body.json).value) &&
      (ComponentsOf(body.json).None? || ComponentsOf(body.json).value == [])
  {
    if body.Parsed? && SlugOf(body.json).Some? {
      var s := SlugOf(body.json).value;
      IsReservedIff(s);
      ValidateSlugIff(s);
      SlugChecksIff(s);
    }
  }

  /** The structure error names exactly the failing blocks, ascending and
      each once, and is raised iff at least one block fails. */
  lemma StructureErrorReportsEveryBadBlock(v: Value, cs: seq<Value>)
    requires SlugOf(v).Some? && AcceptableSlug(SlugOf(v).value)
    requires ComponentsOf(v) == Some(cs) && cs != []
    ensures Validate(Parsed(v)).Reject? <==> exists k :: 0 <= k < |cs| && !ValidateComponent(cs[k])
    ensures Validate(Parsed(v)).Reject? ==>
      && Validate(Parsed(v)).error.code == InvalidComponentStructure
      && var idx := Validate(Parsed(v)).error.details.invalidComponents;
         StrictlyIncreasing(idx) && (forall k: nat :: k in idx <==> k < |cs| && !ValidateComponent(cs[k]))
  {
    SlugChecksIff(SlugOf(v).value);
    InvalidIndicesSpec(cs);
    InvalidIndicesEmptyIff(cs);
  }

  /** A reserved slug is refused first, whatever the components, even one
      such as "favicon.ico" that the format check would also refuse. */
  lemma ReservedBeatsFormat(v: Value)
    requires SlugOf(v).Some? && IsReserved(SlugOf(v).value)
    ensures Validate(Parsed(v)) == Reject(ApiError(ReservedSlug, ReservedDetails(SlugOf(v).value, ReservedSlugs)))
    ensures StatusOf(ReservedSlug) == 400
  {
  }

  /** "API" is reserved although written in capitals. */
  lemma UpperCaseApiIsReserved()
    ensures IsReserved("API")
  {
    var r := ToLower("API");
    assert r[0] == 'a' && r[1] == 'p' && r[2] == 'i';
    assert r == "api";
  }

  lemma FaviconChecks()
    ensures IsReserved("favicon.ico") && !ValidateSlug("favicon.ico")
  {
    ReservedAreLowerCase("favicon.ico");
    ValidateSlugIff("favicon.ico");
    assert !IsSlugChar("favicon.ico"[7]);
  }

  /** "favicon.ico" is reserved, and the format check alone would also
      refuse it for its dot; the reserved check answers first. */
  lemma FaviconIsReservedAndMalformed(v: Value)
    requires SlugOf(v) == Some("favicon.ico")
    ensures IsReserved("favicon.ico") && !ValidateSlug("favicon.ico")
    ensures Validate(Parsed(v)).Reject? && Validate(Parsed(v)).error.code == ReservedSlug
  {
    FaviconChecks();
    ReservedBeatsFormat(v);
  }

  // ---------------------------------------------------------------------
  // The handler against the store
  // ---------------------------------------------------------------------

  /** The envelope carries `data` exactly on success and `error` exactly on
      failure; success is 201, every error has the status of its code. */
  lemma RespondEnvelope(st: StoreState, body: Body, outage: bool)
    ensures var r := Respond(st, body, outage).0;
      && (r.success <==> r.data.Some?)
      && (r.success <==> r.error.None?)
      && (r.success ==> r.status == 201)
      && (!r.success ==> r.status == StatusOf(r.error.value.code))
      && r.status in {201, 400, 409, 500}
  {
  }

  /** The store changes only when every check passes and the insert
      succeeds; every error response leaves it as it was. */
  lemma RespondWritesOnlyOnSuccess(st: StoreState, body: Body, outage: bool)
    ensures var (r, st') := Respond(st, body, outage);
      && (r.success <==> Validate(body).Accept? && !outage && Validate(body).slug !in st.pages)
      && (!r.success ==> st' == st)
  {
  }

  /** A successful creation answers 201 with `url` "/" + slug and the block
      count, and the store then holds the page under that slug next to
      every page it held before. */
  lemma RespondSuccess(st: StoreState, body: Body, outage: bool)
    requires WellFormed(st)
    requires Respond(st, body, outage).0.success
    ensures var (r, st') := Respond(st, body, outage);
      && Validate(body).Accept?
      && var slug := Validate(body).slug;
      && r.status == 201
      && r.data.value.slug == slug
      && r.data.value.url == "/" + slug
      && r.data.value.componentCount == |Validate(body).components|
      && slug in st'.pages && st'.pages[slug].components == Validate(body).components
      && st'.pages.Keys == st.pages.Keys + {slug}
      && (forall s :: s in st.pages ==> st'.pages[s] == st.pages[s])
      && WellFormed(st')
  {
    var v := Validate(body);
    InsertPreservesWellFormed(st, v.slug, v.components, v.metadata, outage);
  }

  /** A slug already stored is answered with PAGE_EXISTS and 409, any other
      store failure with DATABASE_ERROR and 500; neither writes. */
  lemma RespondStoreFailures(st: StoreState, body: Body, outage: bool)
    requires Validate(body).Accept?
    ensures var (r, st') := Respond(st, body, outage);
      && (outage ==> r.error == Some(ApiError(DatabaseError, NoDetails)) && r.status == 500)
      && (!outage && Validate(body).slug in st.pages ==>
            r.error == Some(ApiError(PageExists, SlugDetails(Validate(body).slug))) && r.status == 409)
      && (r.status != 201 ==> st' == st)
  {
  }

  /** Sending the same valid request twice creates the page once; the second
      attempt is refused with PAGE_EXISTS and changes nothing. */
  lemma ResubmitGivesPageExists(st: StoreState, body: Body)
    requires Validate(body).Accept? && Validate(body).slug !in st.pages
    ensures var (first, st1) := Respond(st, body, false);
      var (second, st2) := Respond(st1, body, false);
      && first.success && first.status == 201
      && !second.success && second.status == 409 && second.error.value.code == PageExists
      && st2 == st1
  {
    var v := Validate(body);
    var (first, st1) := Respond(st, body, false);
    assert v.slug in st1.pages;
  }

  /** A missing or non-string slug is an internal error (500), never
      INVALID_SLUG: the failure happens in `toLowerCase`. */
  lemma MissingSlugIsInternalError(st: StoreState, v: Value, outage: bool)
    requires SlugOf(v).None?
    ensures Respond(st, Parsed(v), outage) ==
      (Response(500, false, None, Some(ApiError(InternalError, NoDetails))), st)
  {
  }

  lemma AcceptWhenChecksPass(v: Value, slug: string, components: seq<Value>)
    requires SlugOf(v) == Some(slug) && !IsReserved(slug) && ValidateSlug(slug)
    requires ComponentsOf(v) == Some(components) && components != [] && InvalidIndices(components) == []
    ensures Validate(Parsed(v)) == Accept(slug, components, Property(v, "metadata"))
  {
  }

  /** A request that passes every check, for a slug not yet stored, is
      answered 201 with the id the store issued, `url` "/" + slug, the block
      count and the request's metadata, and the page is stored as sent. */
  lemma AcceptedFreshSlug(st: StoreState, body: Body)
    requires Validate(body).Accept? && Validate(body).slug !in st.pages
    ensures var v := Validate(body);
      var (r, st') := Respond(st, body, false);
      && r == Response(201, true, Some(PageData(st.nextId, v.slug, "/" + v.slug, |v.components|, v.metadata)), None)
      && st'.pages == st.pages[v.slug := Page(st.nextId, v.slug, v.components, v.metadata)]
      && st'.nextId == st.nextId + 1
  {
  }

  /** Wire codes are distinct, so a client can tell every outcome apart. */
  lemma CodeNameInjective(a: ErrorCode, b: ErrorCode)
    requires CodeName(a) == CodeName(b)
    ensures a == b
  {
  }

  /** The "simple-page" request of the endpoint's documentation. */
  function SimplePageBlock(): Value
  {
    Obj(map["type" := Str("TextSection"),
            "props" := Obj(map["title" := Str("Welcome"), "content" := Str("This is a simple page")])])
  }

  function SimplePageBody(): Body
  {
    Parsed(Obj(map["slug" := Str("simple-page"), "components" := Arr([SimplePageBlock()])]))
  }

  lemma NotReservedWithoutCapitals(s: string)
    requires forall i :: 0 <= i < |s| ==> !('A' <= s[i] <= 'Z')
    requires s !in ReservedSlugs
    ensures !IsReserved(s)
  {
    ToLowerWithoutUpper(s);
  }

  lemma SimplePageSlugNotReserved()
    ensures !IsReserved("simple-page")
  {
    var s := "simple-page";
    assert s != "favicon.ico" by { assert s[0] != "favicon.ico"[0]; }
    assert s !in ReservedSlugs by {
      assert forall w :: w in ReservedSlugs && w != "favicon.ico" ==> |w| != |s|;
    }
    NotReservedWithoutCapitals(s);
  }

  lemma SimplePageSlugValid()
    ensures ValidateSlug("simple-page")
  {
    var s := "simple-page";
    assert forall i :: 0 <= i < |s| ==> IsSlugChar(s[i]);
    ValidateSlugIff(s);
  }

  /** The documented "simple-page" request passes every check; by
      AcceptedFreshSlug and ResubmitGivesPageExists it is then created at
      "/simple-page" on an empty store and refused as a duplicate the second
      time. */
  lemma SimplePageAccepted()
    ensures Validate(SimplePageBody()) == Accept("simple-page", [SimplePageBlock()], None)
  {
    var v := SimplePageBody().json;
    assert SlugOf(v) == Some("simple-page");
    assert ComponentsOf(v) == Some([SimplePageBlock()]);
    assert Property(v, "metadata") == None;
    SimplePageSlugNotReserved();
    SimplePageSlugValid();
    SimplePageBlockValid();
    AcceptWhenChecksPass(v, "simple-page", [SimplePageBlock()]);
  }

  lemma SimplePageBlockValid()
    ensures InvalidIndices([SimplePageBlock()]) == []
  {
    ValidateComponentIff(SimplePageBlock());
    assert [SimplePageBlock()][..0] == [];
  }
}
