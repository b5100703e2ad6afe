/**
 * The POST handler of the pages endpoint: the validation sequence, the
 * mapping of store outcomes to error codes and HTTP statuses, and the
 * response envelope.
 */
module PagesApi {
  import opened Wrappers
  import opened Json
  import opened Validation
  import opened Store

  // ---------------------------------------------------------------------
  // Response envelope
  // ---------------------------------------------------------------------

  datatype ErrorCode =
    | InvalidJson
    | ReservedSlug
    | InvalidSlug
    | InvalidComponents
    | InvalidComponentStructure
    | PageExists
    | DatabaseError
    | InternalError

  /** The code as it appears on the wire. */
  function CodeName(code: ErrorCode): (name: string)
    ensures name != [] && forall i :: 0 <= i < |name| ==> 'A' <= name[i] <= 'Z' || name[i] == '_'
  {
    match code
    case InvalidJson => "INVALID_JSON"
    case ReservedSlug => "RESERVED_SLUG"
    case InvalidSlug => "INVALID_SLUG"
    case InvalidComponents => "INVALID_COMPONENTS"
    case InvalidComponentStructure => "INVALID_COMPONENT_STRUCTURE"
    case PageExists => "PAGE_EXISTS"
    case DatabaseError => "DATABASE_ERROR"
    case InternalError => "INTERNAL_ERROR"
  }

  /** The HTTP status each error is answered with. */
  function StatusOf(code: ErrorCode): (status: nat)
    ensures status == 409 <==> code == PageExists
    ensures status == 500 <==> code == DatabaseError || code == InternalError
    ensures status == 400 <==> !(code == PageExists || code == DatabaseError || code == InternalError)
  {
    match code
    case PageExists => 409
    case DatabaseError => 500
    case InternalError => 500
    case _ => 400
  }

  /** The `details` part of an error, where the handler supplies one. */
  datatype Details =
    | NoDetails
    | ReservedDetails(slug: string, reserved: seq<string>)
    | StructureDetails(invalidComponents: seq<nat>, validTypes: seq<string>)
    | SlugDetails(slug: string)

  datatype ApiError = ApiError(code: ErrorCode, details: Details)

  /** The `data` of a successful creation. */
  datatype PageData = PageData(id: nat, slug: string, url: string, componentCount: nat, metadata: Option<Value>)

  /** `{ success, data?, error? }` with its HTTP status. */
  datatype Response = Response(status: nat, success: bool, data: Option<PageData>, error: Option<ApiError>)

  /** `createResponse`: `data` and `error` are spread into the envelope only
      when given (every value the handler passes is an object, so given
      means truthy). */
  function CreateResponse(success: bool, data: Option<PageData>, error: Option<ApiError>, status: nat): (r: Response)
    ensures r.success == success && r.status == status
    ensures r.data.Some? <==> data.Some?
    ensures r.error.Some? <==> error.Some?
  {
    Response(status, success, data, error)
  }

  /** Every error answer: no `data`, the error, and the code's status. */
  function ErrorResponse(e: ApiError): (r: Response)
    ensures !r.success && r.data.None? && r.error == Some(e)
    ensures r.status == StatusOf(e.code) && r.status != 201
  {
    CreateResponse(false, None, Some(e), StatusOf(e.code))
  }

  // ---------------------------------------------------------------------
  // Validation sequence
  // ---------------------------------------------------------------------

  /** The request body: either `req.json()` failed, or it produced a value. */
  datatype Body = Unparseable | Parsed(json: Value)

  /** The outcome of the checks that run before the store is touched. */
  datatype Verdict =
    | Reject(error: ApiError)
    | Accept(slug: string, components: seq<Value>, metadata: Option<Value>)

  /** `body.slug` when it is a string; any other value (absent included)
      makes `slug.toLowerCase()` throw. */
  function SlugOf(v: Value): Option<string>
  {
    var p := Property(v, "slug");
    if p.Some? && p.value.Str? then Some(p.value.s) else None
  }

  /** `body.components` when `Array.isArray` holds of it. */
  function ComponentsOf(v: Value): Option<seq<Value>>
  {
    var p := Property(v, "components");
    if p.Some? && p.value.Arr? then Some(p.value.elems) else None
  }

  /** The checks of the POST handler, in their order. A `null` body makes
      the destructuring throw and any other body without a string slug
      makes `toLowerCase` throw; both end in the outer catch. */
  function Validate(body: Body): (r: Verdict)
    ensures r.Reject? ==> r.error.code != PageExists && r.error.code != DatabaseError
    ensures r.Reject? && StatusOf(r.error.code) == 500 ==> r.error.code == InternalError && body.Parsed? && SlugOf(body.json).None?
    ensures r.Accept? ==>
      && body.Parsed? && SlugOf(body.json) == Some(r.slug) && ComponentsOf(body.json) == Some(r.components)
      && r.metadata == Property(body.json, "metadata")
      && !IsReserved(r.slug) && ValidateSlug(r.slug) && r.components != []
      && forall k :: 0 <= k < |r.components| ==> ValidateComponent(r.components[k])
  {
    match body
    case Unparseable => Reject(ApiError(InvalidJson, NoDetails))
    case Parsed(v) =>
      match SlugOf(v)
      case None => Reject(ApiError(InternalError, NoDetails))
      case Some(slug) =>
        if IsReserved(slug) then Reject(ApiError(ReservedSlug, ReservedDetails(slug, ReservedSlugs)))
        else if slug == "" || !ValidateSlug(slug) then Reject(ApiError(InvalidSlug, NoDetails))
        else match ComponentsOf(v)
          case None => Reject(ApiError(InvalidComponents, NoDetails))
          case Some(components) =>
            if |components| == 0 then Reject(ApiError(InvalidComponents, NoDetails))
            else
              InvalidIndicesEmptyIff(components);
              var invalid := InvalidIndices(components);
              if |invalid| > 0 then Reject(ApiError(InvalidComponentStructure, StructureDetails(invalid, ValidComponentTypes)))
              else Accept(slug, components, Property(v, "metadata"))
  }

  // ---------------------------------------------------------------------
  // The handler as a function of the store state
  // ---------------------------------------------------------------------

  /** The response to a POST and the store state after it. */
  function Respond(st: StoreState, body: Body, outage: bool): (r: (Response, StoreState))
    ensures r.0.success <==> r.0.status == 201
    ensures r.0.success ==> Validate(body).Accept? && Validate(body).slug in r.1.pages
    ensures !r.0.success ==> r.1 == st
  {
    match Validate(body)
    case Reject(e) => (ErrorResponse(e), st)
    case Accept(slug, components, metadata) =>
      var r := Insert(st, slug, components, metadata, outage);
      match r.0
      case Created(page) =>
        var data := PageData(page.id, page.slug, "/" + page.slug, |components|, page.metadata);
        (CreateResponse(true, Some(data), None, 201), r.1)
      case UniqueViolation => (ErrorResponse(ApiError(PageExists, SlugDetails(slug))), r.1)
      case OtherFailure => (ErrorResponse(ApiError(DatabaseError, NoDetails)), r.1)
  }

  /** `POST`: validate step by step, collect the failing blocks, then insert. */
  method Post(store: PageStore, body: Body, outage: bool) returns (resp: Response)
    requires store.Valid()
    modifies store
    ensures store.Valid()
    ensures (resp, store.State()) == Respond(old(store.State()), body, outage)
  {
    if body.Unparseable? {
      return ErrorResponse(ApiError(InvalidJson, NoDetails));
    }
    var v := body.json;
    var slugValue := Property(v, "slug");
    if !(slugValue.Some? && slugValue.value.Str?) {
      return ErrorResponse(ApiError(InternalError, NoDetails));
    }
    var slug := slugValue.value.s;
    assert SlugOf(v) == Some(slug);
    if ToLower(slug) in ReservedSlugs {
      return ErrorResponse(ApiError(ReservedSlug, ReservedDetails(slug, ReservedSlugs)));
    }
    if slug == "" || !ValidateSlug(slug) {
      return ErrorResponse(ApiError(InvalidSlug, NoDetails));
    }
    var componentsValue := Property(v, "components");
    if !(componentsValue.Some? && componentsValue.value.Arr?) || |componentsValue.value.elems| == 0 {
      return ErrorResponse(ApiError(InvalidComponents, NoDetails));
    }
    var components := componentsValue.value.elems;
    assert ComponentsOf(v) == Some(components);
    var invalid := CollectInvalid(components);
    if |invalid| > 0 {
      return ErrorResponse(ApiError(InvalidComponentStructure, StructureDetails(invalid, ValidComponentTypes)));
    }
    assert Validate(body) == Accept(slug, components, Property(v, "metadata"));
    var created := store.Create(slug, components, Property(v, "metadata"), outage);
    match created
    case Created(page) =>
      resp := CreateResponse(true, Some(PageData(page.id, page.slug, "/" + page.slug, |components|, page.metadata)), None, 201);
    case UniqueViolation =>
      resp := ErrorResponse(ApiError(PageExists, SlugDetails(slug)));
    case OtherFailure =>
      resp := ErrorResponse(ApiError(DatabaseError, NoDetails));
  }
}
