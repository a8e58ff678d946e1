/**
 `fetch_epidata` of src/extract.py: checks a request for the Delphi Epidata API
 against a closed table of endpoints, builds its URL and query parameters, and
 turns the HTTP response into a table of records.
 */
module Extract {
  import opened PyDict

  datatype Option<T> = None | Some(value: T)

  /**
   A keyword argument's value: Python's `None`, a string, a list of strings, or
   a scalar. The code passes values on untouched, so only their identity matters.
   */
  datatype Value =
    | NoneValue
    | Text(text: string)
    | TextList(texts: seq<string>)
    | Integer(number: int)
    | Float(float: real)
    | Boolean(flag: bool)

  /** The `ValueError`s raised by the validation, with what their messages name. */
  datatype Error =
    | InvalidEndpoint(endpoint: string)
    | MissingTimeRange
    | MissingMainParameter(param: string, endpoint: string)

  /** Outcome of validation and construction: the request to send, or the error raised. */
  datatype Built = Ok(url: string, params: Dict<Value>) | Err(error: Error)

  /** The response of the HTTP GET: its status code and the `epidata` member of its JSON body, if any. */
  datatype Response<R> = Response(status: int, epidata: Option<seq<R>>)

  /** What a call of `fetch_epidata` ends in: the rows of the returned table, or the raised error. */
  datatype Fetched<R> = Table(rows: seq<R>) | Raised(error: Error)

  const Meta := "fluview_meta"

  const ValidEndpoints: set<string> := {"fluview", "fluview_clinical", "flusurv", Meta}

  /** The parameter each endpoint demands; `fluview_meta` demands none. */
  const EndpointMainParam: map<string, Option<string>> :=
    map["fluview" := Some("regions"),
        "fluview_clinical" := Some("regions"),
        "flusurv" := Some("locations"),
        Meta := None]

  const BaseUrl := "https://api.delphi.cmu.edu/epidata/"

  const EpiweeksKey := "epiweeks"

  /**
   How a Python f-string prints a week argument, which is either text or `None`;
   `None` prints as "None".
   */
  function Render(week: Option<string>): string {
    match week
    case None => "None"
    case Some(w) => w
  }

  /** The keys written before the keyword arguments: `epiweeks`, then the endpoint's main parameter. */
  function Leading(endpoint: string): seq<string>
    requires endpoint in ValidEndpoints
  {
    [EpiweeksKey] + match EndpointMainParam[endpoint] case None => [] case Some(m) => [m]
  }

  /**
   The request `fetch_epidata` sends, or the error it raises, stated as a whole:
   the checks in their order, then the URL and the parameters, whose contents are
   the serialized week range overlaid by the keyword arguments and whose order is
   `epiweeks`, the main parameter, then the other keyword arguments as passed.
   */
  function ExpectedRequest(endpoint: string, startWeek: Option<string>, endWeek: Option<string>,
                           kwargs: Dict<Value>): Built
  {
    if endpoint !in ValidEndpoints then
      Err(InvalidEndpoint(endpoint))
    else if endpoint != Meta && (startWeek.None? || endWeek.None?) then
      Err(MissingTimeRange)
    else if EndpointMainParam[endpoint].Some? && EndpointMainParam[endpoint].value !in kwargs.items then
      Err(MissingMainParameter(EndpointMainParam[endpoint].value, endpoint))
    else
      Ok(BaseUrl + endpoint + "/",
         Params(Leading(endpoint), Text(Render(startWeek) + "-" + Render(endWeek)), kwargs))
  }

  /**
   The query parameters as a whole: the keys `lead` first, then the other
   keyword arguments in the order they were passed; `epiweeks` holds `range`
   unless a keyword argument overrides it, and every keyword argument holds its
   own value.
   */
  function Params(lead: seq<string>, range: Value, kwargs: Dict<Value>): Dict<Value> {
    Dict(lead + Unseen(kwargs.keys, set k | k in lead), map[EpiweeksKey := range] + kwargs.items)
  }

  /**
   Validation and construction as `fetch_epidata` performs them: guard by guard,
   writing into `params` one assignment at a time and finishing with
   `params.update(kwargs)`.
   */
  method BuildRequest(endpoint: string, startWeek: Option<string>, endWeek: Option<string>,
                      kwargs: Dict<Value>) returns (r: Built)
    requires kwargs.Valid()
    ensures r == ExpectedRequest(endpoint, startWeek, endWeek, kwargs)
    ensures r.Ok? ==> r.params.Valid()
  {
    if endpoint !in ValidEndpoints {
      return Err(InvalidEndpoint(endpoint));
    }
    var url := BaseUrl + endpoint + "/";
    var params: Dict<Value> := Dict([], map[]);

    if endpoint != Meta && (startWeek.None? || endWeek.None?) {
      return Err(MissingTimeRange);
    }
    params := params.Set(EpiweeksKey, Text(Render(startWeek) + "-" + Render(endWeek)));

    var mainParam := EndpointMainParam[endpoint];
    if mainParam.Some? {
      if mainParam.value !in kwargs.items {
        return Err(MissingMainParameter(mainParam.value, endpoint));
      }
      params := params.Set(mainParam.value, kwargs.items[mainParam.value]);
    }

    assert params.keys == Leading(endpoint);
    UpdateGivesParams(params, params.items[EpiweeksKey], kwargs);
    params := params.Update(kwargs);
    return Ok(url, params);
  }

  /** An unknown endpoint is rejected first, whatever the weeks and keyword arguments. */
  lemma InvalidEndpointFirst(endpoint: string, startWeek: Option<string>, endWeek: Option<string>,
                             kwargs: Dict<Value>)
    ensures ExpectedRequest(endpoint, startWeek, endWeek, kwargs) == Err(InvalidEndpoint(endpoint))
            <==> endpoint !in ValidEndpoints
  {
  }

  /**
   Every endpoint but `fluview_meta` needs both weeks; a week passed as `None` is
   reported before a missing main parameter, and it is the only cause of
   `MissingTimeRange`.
   */
  lemma TimeRangeRequired(endpoint: string, startWeek: Option<string>, endWeek: Option<string>,
                          kwargs: Dict<Value>)
    ensures ExpectedRequest(endpoint, startWeek, endWeek, kwargs) == Err(MissingTimeRange)
            <==> endpoint in ValidEndpoints - {Meta} && (startWeek.None? || endWeek.None?)
  {
  }

  /**
   `fluview_meta` always succeeds: its weeks may be `None` and it needs no main
   parameter. With both weeks `None` and no `epiweeks` keyword it still sends
   `epiweeks` as "None-None".
   */
  lemma MetaNeverFails(startWeek: Option<string>, endWeek: Option<string>, kwargs: Dict<Value>)
    ensures ExpectedRequest(Meta, startWeek, endWeek, kwargs).Ok?
    ensures startWeek.None? && endWeek.None? && EpiweeksKey !in kwargs.items ==>
              ExpectedRequest(Meta, startWeek, endWeek, kwargs).params.items[EpiweeksKey] == Text("None-None")
  {
  }

  /**
   With both weeks given, `fluview` and `fluview_clinical` fail exactly when
   `regions` is not a keyword argument, and `flusurv` exactly when `locations` is
   not; the error names the parameter and the endpoint. Only the parameter's
   presence is checked, never its value.
   */
  lemma MainParameterRequired(endpoint: string, param: string, startWeek: Option<string>,
                              endWeek: Option<string>, kwargs: Dict<Value>)
    requires (endpoint in {"fluview", "fluview_clinical"} && param == "regions")
          || (endpoint == "flusurv" && param == "locations")
    requires startWeek.Some? && endWeek.Some?
    ensures ExpectedRequest(endpoint, startWeek, endWeek, kwargs) == Err(MissingMainParameter(param, endpoint))
            <==> param !in kwargs.items
    ensures param in kwargs.items ==> ExpectedRequest(endpoint, startWeek, endWeek, kwargs).Ok?
  {
  }

  /** A request is built exactly when all three checks pass, and its URL is the base plus the endpoint. */
  lemma RequestBuiltIffChecksPass(endpoint: string, startWeek: Option<string>, endWeek: Option<string>,
                                  kwargs: Dict<Value>)
    ensures ExpectedRequest(endpoint, startWeek, endWeek, kwargs).Ok? <==>
              && endpoint in ValidEndpoints
              && (endpoint == Meta || (startWeek.Some? && endWeek.Some?))
              && (endpoint == Meta || (if endpoint == "flusurv" then "locations" else "regions") in kwargs.items)
    ensures ExpectedRequest(endpoint, startWeek, endWeek, kwargs).Ok? ==>
              ExpectedRequest(endpoint, startWeek, endWeek, kwargs).url == "https://api.delphi.cmu.edu/epidata/" + endpoint + "/"
  {
  }

  /**
   On success the parameters hold exactly the keyword arguments plus `epiweeks`;
   every keyword value is passed unchanged (a list stays a list), and `epiweeks`
   is "start-end" unless the caller passed an `epiweeks` keyword, which wins.
   */
  lemma ParamsContents(endpoint: string, startWeek: Option<string>, endWeek: Option<string>,
                       kwargs: Dict<Value>)
    requires kwargs.Valid()
    requires ExpectedRequest(endpoint, startWeek, endWeek, kwargs).Ok?
    ensures var params := ExpectedRequest(endpoint, startWeek, endWeek, kwargs).params.items;
            && params.Keys == kwargs.items.Keys + {EpiweeksKey}
            && (forall k :: k in kwargs.items ==> params[k] == kwargs.items[k])
            && params[EpiweeksKey] == if EpiweeksKey in kwargs.items then kwargs.items[EpiweeksKey]
                                      else Text(Render(startWeek) + "-" + Render(endWeek))
  {
  }

  /**
   On success the parameters form a well-formed dict in the order they were
   written: `epiweeks` first, the main parameter second, then the keyword
   arguments that are neither, each once.
   */
  lemma ParamsOrder(endpoint: string, startWeek: Option<string>, endWeek: Option<string>,
                    kwargs: Dict<Value>)
    requires kwargs.Valid()
    requires ExpectedRequest(endpoint, startWeek, endWeek, kwargs).Ok?
    ensures var params := ExpectedRequest(endpoint, startWeek, endWeek, kwargs).params;
            && params.Valid()
            && params.keys[0] == EpiweeksKey
            && (EndpointMainParam[endpoint].Some? ==> params.keys[1] == EndpointMainParam[endpoint].value)
            && forall k :: k in params.keys[|Leading(endpoint)|..] <==> k in kwargs.items && k !in Leading(endpoint)
  {
    ExpectedParamsValid(endpoint, startWeek, endWeek, kwargs);
    ParamsLeadThenRest(Leading(endpoint), Text(Render(startWeek) + "-" + Render(endWeek)), kwargs);
  }

  /** `Params` starts with `lead`, and after it come exactly the keyword names not in `lead`. */
  lemma ParamsLeadThenRest(lead: seq<string>, range: Value, kwargs: Dict<Value>)
    requires kwargs.Valid()
    ensures Params(lead, range, kwargs).keys[..|lead|] == lead
    ensures forall k :: k in Params(lead, range, kwargs).keys[|lead|..] <==> k in kwargs.items && k !in lead
  {
    var keys := Params(lead, range, kwargs).keys;
    assert keys[|lead|..] == Unseen(kwargs.keys, set k | k in lead);
    assert keys[..|lead|] == lead;
  }

  /** The parameters `ExpectedRequest` states form a well-formed dict. */
  lemma ExpectedParamsValid(endpoint: string, startWeek: Option<string>, endWeek: Option<string>,
                           kwargs: Dict<Value>)
    requires kwargs.Valid()
    requires ExpectedRequest(endpoint, startWeek, endWeek, kwargs).Ok?
    ensures ExpectedRequest(endpoint, startWeek, endWeek, kwargs).params.Valid()
  {
    var range := Text(Render(startWeek) + "-" + Render(endWeek));
    var main := EndpointMainParam[endpoint];
    WritesValid(range, if main.Some? then [main.value] else [], kwargs);
  }

  /**
   Writing `epiweeks`, then the main parameter (if any) with its keyword value,
   then updating with the keyword arguments, gives the dict `ExpectedRequest` states.
   */
  lemma WritesValid(range: Value, main: seq<string>, kwargs: Dict<Value>)
    requires kwargs.Valid()
    requires |main| <= 1 && forall m :: m in main ==> m in kwargs.items && m != EpiweeksKey
    ensures Params([EpiweeksKey] + main, range, kwargs).Valid()
  {
    var written: Dict<Value> := Dict([], map[]).Set(EpiweeksKey, range);
    if main != [] {
      written := written.Set(main[0], kwargs.items[main[0]]);
    }
    assert written.keys == [EpiweeksKey] + main;
    UpdateGivesParams(written, range, kwargs);
  }

  /**
   Updating a dict that holds `range` under `epiweeks` and otherwise only
   keyword names gives `Params` over its keys: the values written before the
   update are all overwritten except that of `epiweeks`.
   */
  lemma UpdateGivesParams(written: Dict<Value>, range: Value, kwargs: Dict<Value>)
    requires written.Valid() && kwargs.Valid()
    requires EpiweeksKey in written.items && written.items[EpiweeksKey] == range
    requires forall k :: k in written.items && k != EpiweeksKey ==> k in kwargs.items
    ensures written.Update(kwargs) == Params(written.keys, range, kwargs)
  {
    UpdateKeysGivesParams(written, range, kwargs);
    UpdateItemsGivesParams(written, range, kwargs);
  }

  /** The key order half of `UpdateGivesParams`. */
  lemma UpdateKeysGivesParams(written: Dict<Value>, range: Value, kwargs: Dict<Value>)
    requires written.Valid() && kwargs.Valid()
    ensures written.Update(kwargs).keys == Params(written.keys, range, kwargs).keys
  {
    assert written.items.Keys == set k | k in written.keys;
  }

  /** The contents half of `UpdateGivesParams`. */
  lemma UpdateItemsGivesParams(written: Dict<Value>, range: Value, kwargs: Dict<Value>)
    requires written.Valid() && kwargs.Valid()
    requires EpiweeksKey in written.items && written.items[EpiweeksKey] == range
    requires forall k :: k in written.items && k != EpiweeksKey ==> k in kwargs.items
    ensures written.Update(kwargs).items == Params(written.keys, range, kwargs).items
  {
    OverlayKeepsOnlyEpiweeks(written.items, range, kwargs.items);
  }

  /** Overlaying `kw` on `w` leaves of `w` only its `epiweeks` entry when `kw` covers `w`'s other keys. */
  lemma OverlayKeepsOnlyEpiweeks(w: map<string, Value>, range: Value, kw: map<string, Value>)
    requires EpiweeksKey in w && w[EpiweeksKey] == range
    requires forall k :: k in w && k != EpiweeksKey ==> k in kw
    ensures w + kw == map[EpiweeksKey := range] + kw
  {
    var lhs, rhs := w + kw, map[EpiweeksKey := range] + kw;
    assert lhs.Keys == rhs.Keys;
    forall k | k in lhs ensures lhs[k] == rhs[k] {
    }
  }

  /** The table built from the response: the `epidata` records on status 200, nothing otherwise. */
  function Frame<R>(response: Response<R>): (rows: seq<R>)
    ensures rows != [] ==> response.status == 200 && response.epidata == Some(rows)
    ensures response.status == 200 && response.epidata.Some? ==> rows == response.epidata.value
  {
    if response.status == 200 then
      match response.epidata
      case Some(records) => records
      case None => []
    else
      []
  }

  /**
   The whole of `fetch_epidata`, with the HTTP GET as the parameter `send`: a
   validation error is raised, and otherwise the response to the built request
   becomes the table; a failed response is never raised.
   */
  method FetchEpidata<R>(endpoint: string, startWeek: Option<string>, endWeek: Option<string>,
                         kwargs: Dict<Value>, send: (string, Dict<Value>) -> Response<R>)
    returns (r: Fetched<R>)
    requires kwargs.Valid()
    ensures match ExpectedRequest(endpoint, startWeek, endWeek, kwargs)
            case Err(e) => r == Raised(e)
            case Ok(url, params) => r == Table(Frame(send(url, params)))
  {
    var built := BuildRequest(endpoint, startWeek, endWeek, kwargs);
    match built
    case Err(e) =>
      r := Raised(e);
    case Ok(url, params) =>
      var response := send(url, params);
      r := Table(Frame(response));
  }
}
