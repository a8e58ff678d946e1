# fetch_epidata request construction, in Dafny

This project models `fetch_epidata` from `src/extract.py` of the flu-prediction
repository. The function requests influenza surveillance data from the Delphi
Epidata API (`https://api.delphi.cmu.edu/epidata/`). It serves four endpoints:
`fluview`, `fluview_clinical`, `flusurv` and `fluview_meta`. The function:

1. rejects an endpoint outside those four (`InvalidEndpoint`);
2. rejects a call in which a week was passed as `None`, unless the endpoint is
   `fluview_meta` (`MissingTimeRange`). Both weeks are required positional
   arguments (src/extract.py:12), so `None` is the only way a week can be
   absent here;
3. looks up the endpoint's main parameter. This is `regions` for `fluview` and
   `fluview_clinical`, `locations` for `flusurv`, and none for `fluview_meta`.
   If the endpoint has one and the caller did not pass it as a keyword
   argument, the call is rejected (`MissingMainParameter`, which names the
   parameter and the endpoint);
4. builds the URL from the base address and the endpoint name;
5. builds the query parameters by successive writes into a dict:
   - `epiweeks = "{start}-{end}"`. A week passed as `None` prints as `None`,
     so `fluview_meta` called with both weeks `None` sends `"None-None"`;
   - then the main parameter;
   - then `params.update(kwargs)`;
6. sends the GET request and turns the response into a table. On status 200 the
   table holds the `epidata` records of the JSON body, or no records if that
   member is absent. On any other status the table is empty, and no error is
   raised.

Files:

- `pydict.dfy` (module `PyDict`) models Python's `dict` as the code uses it.
  This dict is ordered: `keys` records the order in which keys were first
  inserted, and `items` holds the contents. `Set` is `d[k] = v`. `Update` is
  `d.update(src)`. The module also proves what `update` does to the contents
  (a right-biased map union) and to the key order (the new keys are appended in
  `src`'s order).
- `extract.dfy` (module `Extract`) holds the following:
  - the endpoint tables;
  - `ExpectedRequest`, a declarative statement of the request that is sent or
    the error that is raised;
  - the method `BuildRequest`, which follows the source guard by guard and
    write by write, and is proved equal to `ExpectedRequest`;
  - `Frame`, the status dispatch;
  - `FetchEpidata`, the whole function, which takes the HTTP GET as a function
    parameter `send`;
  - lemmas about `ExpectedRequest`, one for each behaviour the code promises.

Keyword arguments are a `Dict<Value>`. Python keeps keyword arguments in the
order they were passed, and that order carries into the query parameters. Every
property about their contents is stated on the dict's `items` map. A `Value` is
`None`, a string, a list of strings, an integer, a float or a bool. The code
never inspects a value; it passes each one through unchanged. So `regions=None`
passes the presence check at src/extract.py:42.

The main parameter's value is copied into `params` unchanged at
src/extract.py:44. A list stays a list, and nothing is joined with commas.
`params.update(kwargs)` at src/extract.py:47 then writes the same value again.
`ParamsContents` states this: every keyword value arrives unchanged.

## Model

| member | source | states |
|---|---|---|
| `PyDict.Dict.Set` | src/extract.py:44 | `params[k] = v` keeps the dict well-formed (distinct keys, in step with the contents). The value of `k` becomes `v`; a key already present keeps its position, and a new key is appended. |
| `PyDict.Dict.Update` | src/extract.py:47 | `params.update(kwargs)` keeps the dict well-formed. Its contents become the old contents overlaid by `kwargs` (kwargs wins on shared keys). The old keys keep their order, followed by the keys new to `params` in the order they were passed. |
| `PyDict.UpdateFromItems` | src/extract.py:47 | Assigning the source's entries one at a time gives the old contents overlaid by those entries. |
| `PyDict.UnseenKeepsOrder` | src/extract.py:47 | The keys that `update` appends keep the order in which they were passed: filtering a concatenation filters each part in sequence, and a single key is kept exactly when it is not yet present. So the appended keys are the passed keys with the present ones removed and the rest in place. |
| `PyDict.UpdateFromKeys` | src/extract.py:47 | Assigning the source's entries one at a time appends exactly the keys that were not yet present, in the source's order. |
| `Extract.BuildRequest` | src/extract.py:27-47 | The guard-by-guard, write-by-write construction returns exactly `ExpectedRequest`: the same error in the same precedence, or the same URL and the same ordered parameters. It also returns a well-formed dict. |
| `Extract.UpdateGivesParams` | src/extract.py:44-47 | After `epiweeks` and the main parameter are written, `update(kwargs)` yields the stated parameters. The main parameter's earlier value is overwritten by the same keyword value, and `epiweeks` keeps the range unless a keyword overrides it. |
| `Extract.InvalidEndpointFirst` | src/extract.py:27-28 | The result is `InvalidEndpoint(endpoint)` if and only if the endpoint is not one of the four. This holds whatever the weeks and keyword arguments are, because this check runs first. |
| `Extract.TimeRangeRequired` | src/extract.py:34-35 | The result is `MissingTimeRange` if and only if the endpoint is valid, is not `fluview_meta`, and a week was passed as `None`. This error takes precedence over a missing main parameter. |
| `Extract.MetaNeverFails` | src/extract.py:34-44 | `fluview_meta` always yields a request: its weeks may be `None` and it needs no main parameter. With both weeks `None` and no `epiweeks` keyword, it sends `epiweeks = "None-None"`. |
| `Extract.MainParameterRequired` | src/extract.py:40-43 | With both weeks given, `fluview` and `fluview_clinical` fail with `MissingMainParameter("regions", endpoint)` exactly when `regions` is absent, and `flusurv` fails with `MissingMainParameter("locations", endpoint)` exactly when `locations` is absent. Otherwise the request is built: only presence is checked, never the value. |
| `Extract.RequestBuiltIffChecksPass` | src/extract.py:27-43 | A request is built if and only if the endpoint is valid, neither week is `None` (unless the endpoint is `fluview_meta`), and the main parameter is present (unless the endpoint is `fluview_meta`). The URL is then `https://api.delphi.cmu.edu/epidata/` + endpoint + `/`. |
| `Extract.ParamsContents` | src/extract.py:37-47 | On success the parameter keys are exactly the keyword names plus `epiweeks`. Every keyword value appears unchanged. `epiweeks` is `start-end` unless the caller passed an `epiweeks` keyword, in which case the caller's value wins. |
| `Extract.ParamsOrder` | src/extract.py:31-47 | On success the parameters form a well-formed dict. `epiweeks` comes first, the main parameter second, and after them come exactly the keyword names that are neither. |
| `Extract.ExpectedParamsValid` | src/extract.py:31-47 | The stated parameters never repeat a key and list exactly the keys they hold. |
| `Extract.Frame` | src/extract.py:50-55 | A non-empty table comes only from status 200 with an `epidata` member, and it holds that member's records. On status 200 the table is the `epidata` records, or empty when the member is absent. Any other status gives an empty table. |
| `Extract.FetchEpidata` | src/extract.py:12-55 | A validation failure is raised as the error `ExpectedRequest` names. Otherwise the table is `Frame` of the response to the built URL and parameters. A non-200 response is never raised. |

## Left out

- The HTTP GET (`requests.get`, src/extract.py:49) is I/O through a library. It
  is the function parameter `send` of `FetchEpidata`.
- How `requests` encodes the parameter dict into a query string is library
  code, so it is not modelled (for instance, a list value becomes repeated
  keys).
- Decoding the JSON body (`response.json()`) and building the `pandas`
  DataFrame are foreign-library work. The response is abstracted as its status
  and its optional `epidata` record list, and the table as that list of
  records. A body that is not valid JSON, which makes `response.json()` raise,
  is not modelled.
- The diagnostic `print` on a failed response is console output only.
- The text of the `ValueError` messages is not modelled. Only the kind of
  error and the names it reports are. The message for an invalid endpoint
  prints a Python set, whose order is unspecified.
- Calls that leave out `start_week` or `end_week` altogether are not
  modelled. Both are required positional parameters (src/extract.py:12), so
  Python raises `TypeError` when binding the arguments, before line 27 runs.
- Weeks are taken as their printed text: `Option<string>`, with `None` shown
  as "None". The code accepts any object and formats it with `str()`. As in
  the code, it does not check the week format or that start ≤ end.
- Keyword values that are other Python objects (dicts, tuples, lists of
  non-strings, and so on) fall outside `Value`. The code passes them through
  just as it passes the six kinds modelled.
- Python itself rejects keyword arguments named `endpoint`, `start_week` or
  `end_week`, since they bind the named parameters. The model places no
  restriction on keyword names, and none is needed.
- The `__main__` example block (src/extract.py:59-66) is demonstration code.
