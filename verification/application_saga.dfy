/** The redux-saga workers for applications on the browser side.

    A worker is a generator: it yields an HTTP call, receives its outcome, reshapes the
    data and yields a `put` (a dispatch to the store).  Each worker is modelled as a
    method that takes the outcome of its one HTTP call as a parameter and returns the
    sequence of effects it yields, in order.  `moment(x).format('L')` is a parameter
    `fmt`, left uninterpreted. */
module ApplicationSaga {

  // ---------------------------------------------------------------------------
  // Records, requests and effects
  // ---------------------------------------------------------------------------

  datatype Option<T> = None | Some(value: T)

  /** A JSON field value as the browser sees it; reading a missing property gives
      `Undefined`. */
  datatype Value = Undefined | Null | Bool(b: bool) | Number(n: int) | Str(s: string)

  /** An application record: its properties by name. */
  type Record = map<string, Value>

  /** `record.field` */
  function Get(r: Record, field: string): Value {
    if field in r then r[field] else Undefined
  }

  /** Replaces one property by the display form of its old value:
      `record.field = moment(record.field).format('L')`. */
  function FormatDate(r: Record, field: string, fmt: Value -> string): Record {
    r[field := Str(fmt(Get(r, field)))]
  }

  datatype Verb = GET | POST | PUT | DELETE

  /** An axios call: the URL is `path` followed by the text of `id` when there is one. */
  datatype Request = Request(verb: Verb, path: string, id: Option<Value>, body: Option<Record>)

  /** The outcome of an axios call: the response's `data`, or a rejected promise. */
  datatype Outcome = Success(data: seq<Record>) | Failure

  datatype Action =
    | FetchApplications
    | SetApplications(applications: seq<Record>)
    | SetApplication(application: Record)

  /** What a worker yields: an HTTP call, or a dispatch to the store. */
  datatype Effect = Call(request: Request) | Dispatch(action: Action)

  /** The date properties each fetch worker rewrites. */
  const LIST_DATE_FIELDS: seq<string> :=
    ["filed_date", "last_checked_date", "status_date", "response_sent_date", "uspto_mailing_date"]
  const DETAIL_DATE_FIELDS: seq<string> := ["filed_date", "last_checked_date", "status_date"]

  /** The properties the post and update workers take from the action payload. */
  const POST_FIELDS: seq<string> :=
    ["user_id", "applicant_name", "filed_date", "last_checked_date", "status_date",
     "application_number", "title", "inventor_name", "examiner_name", "group_art_unit",
     "docket_number", "confirmation_number"]
  const UPDATE_FIELDS: seq<string> :=
    ["user_id", "applicant_name", "filed_date", "last_checked_date", "status_date",
     "application_number", "title", "inventor_name", "examiner_name", "group_art_unit",
     "docket_number"]

  /** `after` is `before` with each of `fields` set to the display form of its old
      value, and every other property as it was. */
  predicate Reformatted(before: Record, after: Record, fields: seq<string>, fmt: Value -> string) {
    after.Keys == before.Keys + (set f | f in fields) &&
    (forall f :: f in fields ==> after[f] == Str(fmt(Get(before, f)))) &&
    (forall f :: f in before && f !in fields ==> after[f] == before[f])
  }

  /** An object literal built from destructured payload properties: `{ user_id, ... }`. */
  function Pick(payload: Record, fields: seq<string>): (body: Record)
    ensures body.Keys == set f | f in fields
    ensures forall f :: f in body ==> body[f] == Get(payload, f)
  {
    map f | f in fields :: Get(payload, f)
  }

  /** The post body and the update body carry the same values for the same properties;
      the post body has exactly one property more, `confirmation_number`. */
  lemma PostBodyExtendsUpdateBody(payload: Record)
    ensures var post, update := Pick(payload, POST_FIELDS), Pick(payload, UPDATE_FIELDS);
      post.Keys == update.Keys + {"confirmation_number"} &&
      "confirmation_number" !in update &&
      forall f :: f in update ==> f in post && post[f] == update[f]
  {
    assert POST_FIELDS == UPDATE_FIELDS + ["confirmation_number"];
  }

  /** The actions among the effects, in order. */
  function Dispatched(effects: seq<Effect>): (actions: seq<Action>)
    ensures |actions| <= |effects|
    ensures forall a :: a in actions <==> Dispatch(a) in effects
  {
    if effects == [] then []
    else
      assert effects == [effects[0]] + effects[1..];
      (if effects[0].Dispatch? then [effects[0].action] else []) + Dispatched(effects[1..])
  }

  predicate Distinct(fields: seq<string>) {
    forall i, j :: 0 <= i < j < |fields| ==> fields[i] != fields[j]
  }

  /** Consecutive assignments `record.f = moment(record.f).format('L')`, one per
      field of `fields`, in that order. */
  function FormatDates(r: Record, fields: seq<string>, fmt: Value -> string): Record {
    if fields == [] then r
    else FormatDate(FormatDates(r, fields[..|fields| - 1], fmt), fields[|fields| - 1], fmt)
  }

  /** When no field repeats, the assignments reformat exactly those fields. */
  lemma {:induction false} FormatDatesReformats(r: Record, fields: seq<string>, fmt: Value -> string)
    requires Distinct(fields)
    ensures Reformatted(r, FormatDates(r, fields, fmt), fields, fmt)
  {
    if fields != [] {
      var init, last := fields[..|fields| - 1], fields[|fields| - 1];
      assert Distinct(init);
      FormatDatesReformats(r, init, fmt);
      var mid := FormatDates(r, init, fmt);
      assert last !in init;
      assert Get(mid, last) == Get(r, last);
      assert fields == init + [last];
      assert (set f | f in fields) == (set f | f in init) + {last};
    }
  }

  // ---------------------------------------------------------------------------
  // Workers
  // ---------------------------------------------------------------------------

  /** fetchApplications: GET the list, reformat the five date properties of every
      record in place, dispatch SET_APPLICATIONS with the whole list. */
  method FetchApplicationList(outcome: Outcome, fmt: Value -> string) returns (effects: seq<Effect>)
    ensures |effects| >= 1 && effects[0] == Call(Request(GET, "api/application/status", None, None))
    ensures outcome.Failure? ==> |effects| == 1
    ensures outcome.Success? ==>
      |effects| == 2 && effects[1].Dispatch? && effects[1].action.SetApplications? &&
      var list := effects[1].action.applications;
      |list| == |outcome.data| &&
      forall k :: 0 <= k < |list| ==> Reformatted(outcome.data[k], list[k], LIST_DATE_FIELDS, fmt)
  {
    effects := [Call(Request(GET, "api/application/status", None, None))];
    if outcome.Failure? {
      return;
    }
    var data := outcome.data;
    var applications := new Record[|data|](k requires 0 <= k < |data| => data[k]);
    assert Distinct(LIST_DATE_FIELDS);
    var i := 0;
    while i < applications.Length
      invariant 0 <= i <= applications.Length
      invariant forall k :: 0 <= k < i ==> Reformatted(data[k], applications[k], LIST_DATE_FIELDS, fmt)
      invariant forall k :: i <= k < applications.Length ==> applications[k] == data[k]
    {
      FormatDatesReformats(applications[i], LIST_DATE_FIELDS, fmt);
      applications[i] := FormatDates(applications[i], LIST_DATE_FIELDS, fmt);
      i := i + 1;
    }
    effects := effects + [Dispatch(SetApplications(applications[..]))];
  }

  /** fetchApplication: GET one application by id; the response is an array whose
      element 0 gets three of its date properties reformatted and is dispatched with
      SET_APPLICATION.  An empty array makes the destructuring of element 0 throw,
      and the catch swallows it. */
  method FetchApplication(id: Value, outcome: Outcome, fmt: Value -> string) returns (effects: seq<Effect>)
    ensures |effects| >= 1 && effects[0] == Call(Request(GET, "/api/application/", Some(id), None))
    ensures outcome.Failure? || outcome.data == [] ==> |effects| == 1
    ensures outcome.Success? && outcome.data != [] ==>
      |effects| == 2 && effects[1].Dispatch? && effects[1].action.SetApplication? &&
      var application := effects[1].action.application;
      Reformatted(outcome.data[0], application, DETAIL_DATE_FIELDS, fmt) &&
      Get(application, "response_sent_date") == Get(outcome.data[0], "response_sent_date") &&
      Get(application, "uspto_mailing_date") == Get(outcome.data[0], "uspto_mailing_date")
  {
    effects := [Call(Request(GET, "/api/application/", Some(id), None))];
    if outcome.Failure? || outcome.data == [] {
      return;
    }
    var data := outcome.data;
    var applications := new Record[|data|](k requires 0 <= k < |data| => data[k]);
    // The three dates are read out of element 0 before any is written back; as the
    // three properties are distinct, that is the same as formatting them one by one.
    assert Distinct(DETAIL_DATE_FIELDS);
    FormatDatesReformats(applications[0], DETAIL_DATE_FIELDS, fmt);
    applications[0] := FormatDates(applications[0], DETAIL_DATE_FIELDS, fmt);
    effects := effects + [Dispatch(SetApplication(applications[0]))];
  }

  /** postApplication: POST the twelve payload properties, then on success ask for
      the list again. */
  method PostApplication(payload: Record, outcome: Outcome) returns (effects: seq<Effect>)
    ensures |effects| >= 1 && effects[0].Call?
    ensures var request := effects[0].request;
      request.verb == POST && request.path == "/api/application/add" && request.id == None &&
      request.body.Some? && request.body.value.Keys == (set f | f in POST_FIELDS) &&
      "confirmation_number" in request.body.value &&
      forall f :: f in request.body.value ==> request.body.value[f] == Get(payload, f)
    ensures |effects| == if outcome.Success? then 2 else 1
    ensures Dispatched(effects) == if outcome.Success? then [FetchApplications] else []
    ensures outcome.Success? ==> effects[|effects| - 1] == Dispatch(FetchApplications)
  {
    var body := Pick(payload, POST_FIELDS);
    effects := [Call(Request(POST, "/api/application/add", None, Some(body)))];
    if outcome.Success? {
      effects := effects + [Dispatch(FetchApplications)];
    }
  }

  /** updateApplication: PUT the eleven payload properties (not `id`, not
      `confirmation_number`) to a URL carrying the payload's `id`, then on success ask
      for the list again. */
  method UpdateApplication(payload: Record, outcome: Outcome) returns (effects: seq<Effect>)
    ensures |effects| >= 1 && effects[0].Call?
    ensures var request := effects[0].request;
      request.verb == PUT && request.path == "/api/application/edit/" &&
      request.id == Some(Get(payload, "id")) &&
      request.body.Some? && request.body.value.Keys == (set f | f in UPDATE_FIELDS) &&
      "id" !in request.body.value && "confirmation_number" !in request.body.value &&
      forall f :: f in request.body.value ==> request.body.value[f] == Get(payload, f)
    ensures |effects| == if outcome.Success? then 2 else 1
    ensures Dispatched(effects) == if outcome.Success? then [FetchApplications] else []
    ensures outcome.Success? ==> effects[|effects| - 1] == Dispatch(FetchApplications)
  {
    var id := Get(payload, "id");
    var body := Pick(payload, UPDATE_FIELDS);
    effects := [Call(Request(PUT, "/api/application/edit/", Some(id), Some(body)))];
    if outcome.Success? {
      effects := effects + [Dispatch(FetchApplications)];
    }
  }

  /** deleteApplication: the payload is the id itself; DELETE, then on success ask
      for the list again. */
  method DeleteApplication(id: Value, outcome: Outcome) returns (effects: seq<Effect>)
    ensures |effects| >= 1 && effects[0] == Call(Request(DELETE, "api/application/delete/", Some(id), None))
    ensures |effects| == if outcome.Success? then 2 else 1
    ensures Dispatched(effects) == if outcome.Success? then [FetchApplications] else []
    ensures outcome.Success? ==> effects[|effects| - 1] == Dispatch(FetchApplications)
  {
    effects := [Call(Request(DELETE, "api/application/delete/", Some(id), None))];
    if outcome.Success? {
      effects := effects + [Dispatch(FetchApplications)];
    }
  }
}
