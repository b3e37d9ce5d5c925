/** The listing fetched from the forum (`fetch_json`): the decoded JSON value,
    the schema check that rejects a malformed listing before any entry is
    looked at, and the typed entries the candidate selector works on. */
module Listing {
  import opened Wrappers

  /** A decoded JSON value, as `json.loads` returns it. Only integral numbers
      are modelled. */
  datatype Json =
    | JNull
    | JBool(b: bool)
    | JNum(n: int)
    | JStr(s: string)
    | JArr(items: seq<Json>)
    | JObj(fields: map<string, Json>)

  /** `key in value` on a decoded object; any other kind of value is taken to
      have no fields. */
  predicate Has(j: Json, key: string)
  {
    j.JObj? && key in j.fields
  }

  /** The fields every child's `data` object must carry. */
  const RequiredFields: seq<string> := ["title", "url", "score", "ups", "downs", "is_self"]

  datatype SchemaError =
    | RemoteError(detail: Json)
    | MissingData
    | MissingChildren
    | ChildrenNotList
    | ChildMissingData(index: nat)
    | ChildMissingField(index: nat, field: string)
    | IllTypedField(index: nat, field: string)

  /** One listing entry (one forum post), typed. */
  datatype Entry = Entry(title: string, url: string, score: int, ups: int, downs: int, isSelf: bool)

  predicate HasAllFields(data: Json)
  {
    && Has(data, "title") && Has(data, "url") && Has(data, "score")
    && Has(data, "ups") && Has(data, "downs") && Has(data, "is_self")
  }

  lemma AllFieldsListed(data: Json)
    ensures HasAllFields(data) <==> forall k :: 0 <= k < |RequiredFields| ==> Has(data, RequiredFields[k])
  {
    if HasAllFields(data) {
      forall k | 0 <= k < |RequiredFields| ensures Has(data, RequiredFields[k]) {
        assert RequiredFields[k] in {"title", "url", "score", "ups", "downs", "is_self"};
      }
    } else {
      assert exists k :: 0 <= k < |RequiredFields| && !Has(data, RequiredFields[k]) by {
        if !Has(data, "title") { assert !Has(data, RequiredFields[0]); }
        else if !Has(data, "url") { assert !Has(data, RequiredFields[1]); }
        else if !Has(data, "score") { assert !Has(data, RequiredFields[2]); }
        else if !Has(data, "ups") { assert !Has(data, RequiredFields[3]); }
        else if !Has(data, "downs") { assert !Has(data, RequiredFields[4]); }
        else { assert !Has(data, RequiredFields[5]); }
      }
    }
  }

  /** A child of the listing that passes the check: it has a `data` object
      holding every required field. */
  predicate CompleteChild(child: Json)
  {
    Has(child, "data") && HasAllFields(child.fields["data"])
  }

  /** The listing shape the check accepts: no top-level `error`, a
      `data.children` list, and every child complete. */
  predicate WellFormed(j: Json)
  {
    && !Has(j, "error")
    && Has(j, "data")
    && Has(j.fields["data"], "children")
    && j.fields["data"].fields["children"].JArr?
    && forall i :: 0 <= i < |j.fields["data"].fields["children"].items| ==>
         CompleteChild(j.fields["data"].fields["children"].items[i])
  }

  /** The first of `fields[k..]` that `data` lacks, looked up in order. */
  function FirstMissing(data: Json, fields: seq<string>, k: nat): (r: Option<string>)
    requires k <= |fields|
    ensures r.None? <==> forall m :: k <= m < |fields| ==> Has(data, fields[m])
    ensures r.Some? ==> exists m :: k <= m < |fields| && fields[m] == r.value && !Has(data, r.value)
                          && forall m' :: k <= m' < m ==> Has(data, fields[m'])
    decreases |fields| - k
  {
    if k == |fields| then None
    else if !Has(data, fields[k]) then Some(fields[k])
    else FirstMissing(data, fields, k + 1)
  }

  /** The loop over the children, from index `i` on: stops at the first child
      without `data`, or whose `data` lacks a required field; otherwise yields
      the children's `data` objects in listing order. */
  function CheckChildren(children: seq<Json>, i: nat): (r: Result<seq<Json>, SchemaError>)
    requires i <= |children|
    ensures r.Success? <==> forall m :: i <= m < |children| ==> CompleteChild(children[m])
    ensures r.Success? ==> |r.value| == |children| - i
                           && forall m :: i <= m < |children| ==> r.value[m - i] == children[m].fields["data"]
    ensures r.Failure? ==> match r.error
                           case ChildMissingData(n) =>
                             i <= n < |children| && !Has(children[n], "data")
                             && forall m :: i <= m < n ==> CompleteChild(children[m])
                           case ChildMissingField(n, f) =>
                             i <= n < |children| && Has(children[n], "data")
                             && f in RequiredFields && !Has(children[n].fields["data"], f)
                             && forall m :: i <= m < n ==> CompleteChild(children[m])
                           case _ => false
    decreases |children| - i
  {
    if i == |children| then Success([])
    else if !Has(children[i], "data") then Failure(ChildMissingData(i))
    else
      AllFieldsListed(children[i].fields["data"]);
      match FirstMissing(children[i].fields["data"], RequiredFields, 0)
      case Some(f) => Failure(ChildMissingField(i, f))
      case None =>
        match CheckChildren(children, i + 1)
        case Failure(e) => Failure(e)
        case Success(rest) => Success([children[i].fields["data"]] + rest)
  }

  /** The sanity checks of `fetch_json`, in the order the program makes them;
      the `exit(1)` of each becomes a `Failure` naming what was missing. */
  function CheckListing(j: Json): (r: Result<seq<Json>, SchemaError>)
    ensures r.Success? <==> WellFormed(j)
    ensures r.Success? ==> var children := j.fields["data"].fields["children"].items;
                           |r.value| == |children|
                           && forall m :: 0 <= m < |children| ==> r.value[m] == children[m].fields["data"]
    ensures Has(j, "error") ==> r == Failure(RemoteError(j.fields["error"]))
    ensures !Has(j, "error") && !Has(j, "data") ==> r == Failure(MissingData)
    ensures r.Failure? && r.error.ChildMissingField? ==>
              Has(j, "data") && Has(j.fields["data"], "children") && j.fields["data"].fields["children"].JArr? &&
              var children := j.fields["data"].fields["children"].items;
              r.error.index < |children| && Has(children[r.error.index], "data")
              && !Has(children[r.error.index].fields["data"], r.error.field)
  {
    if Has(j, "error") then Failure(RemoteError(j.fields["error"]))
    else if !Has(j, "data") then Failure(MissingData)
    else if !Has(j.fields["data"], "children") then Failure(MissingChildren)
    else match j.fields["data"].fields["children"]
      case JArr(children) => CheckChildren(children, 0)
      case _ => Failure(ChildrenNotList)
  }

  /** The fields an entry is read from have the types it needs: text for
      the title and the URL, numbers for the score and the votes. */
  predicate WellTyped(data: Json)
    requires HasAllFields(data)
  {
    && data.fields["title"].JStr? && data.fields["url"].JStr?
    && data.fields["score"].JNum? && data.fields["ups"].JNum? && data.fields["downs"].JNum?
  }

  /** Reads one checked `data` object as an entry. `is_self` counts as a self
      post only when it is JSON `true` (the program tests `is True`). */
  function ToEntry(data: Json, index: nat): (r: Result<Entry, SchemaError>)
    requires HasAllFields(data)
    ensures r.Success? ==> JStr(r.value.title) == data.fields["title"]
                           && JStr(r.value.url) == data.fields["url"]
                           && JNum(r.value.score) == data.fields["score"]
                           && JNum(r.value.ups) == data.fields["ups"]
                           && JNum(r.value.downs) == data.fields["downs"]
                           && (r.value.isSelf <==> data.fields["is_self"] == JBool(true))
    ensures r.Success? <==> WellTyped(data)
    ensures r.Failure? ==> r.error.IllTypedField? && r.error.index == index
                           && r.error.field in ["title", "url", "score", "ups", "downs"]
                           && (r.error.field in ["title", "url"] ==> !data.fields[r.error.field].JStr?)
                           && (r.error.field in ["score", "ups", "downs"] ==> !data.fields[r.error.field].JNum?)
  {
    var f := data.fields;
    if !f["title"].JStr? then Failure(IllTypedField(index, "title"))
    else if !f["url"].JStr? then Failure(IllTypedField(index, "url"))
    else if !f["score"].JNum? then Failure(IllTypedField(index, "score"))
    else if !f["ups"].JNum? then Failure(IllTypedField(index, "ups"))
    else if !f["downs"].JNum? then Failure(IllTypedField(index, "downs"))
    else Success(Entry(f["title"].s, f["url"].s, f["score"].n, f["ups"].n, f["downs"].n,
                       f["is_self"] == JBool(true)))
  }

  function ToEntries(datas: seq<Json>, i: nat): (r: Result<seq<Entry>, SchemaError>)
    requires i <= |datas|
    requires forall m :: 0 <= m < |datas| ==> HasAllFields(datas[m])
    ensures r.Success? <==> forall m :: i <= m < |datas| ==> WellTyped(datas[m])
    ensures r.Success? ==> |r.value| == |datas| - i
                           && forall m :: i <= m < |datas| ==> ToEntry(datas[m], m) == Success(r.value[m - i])
    ensures r.Failure? ==> r.error.IllTypedField? && i <= r.error.index < |datas|
                           && !WellTyped(datas[r.error.index])
                           && forall m :: i <= m < r.error.index ==> WellTyped(datas[m])
    decreases |datas| - i
  {
    if i == |datas| then Success([])
    else
      var e :- ToEntry(datas[i], i);
      var rest :- ToEntries(datas, i + 1);
      Success([e] + rest)
  }

  datatype FetchError = BadStatus(status: int) | EmptyBody | Schema(error: SchemaError)

  /** `fetch_json` after the request is sent: `status` and `body` are what the
      server answered and `decoded` is what `json.loads` makes of `body`. */
  function FetchListing(status: int, body: string, decoded: Json): (r: Result<seq<Entry>, FetchError>)
    ensures status != 200 ==> r == Failure(BadStatus(status))
    ensures status == 200 && body == "" ==> r == Failure(EmptyBody)
    ensures r.Success? ==> WellFormed(decoded)
    ensures WellFormed(decoded) ==>
              var children := decoded.fields["data"].fields["children"].items;
              && (r.Success? <==> status == 200 && body != ""
                                  && forall m :: 0 <= m < |children| ==> WellTyped(children[m].fields["data"]))
              && (r.Success? ==> |r.value| == |children|
                                 && forall m :: 0 <= m < |children| ==>
                                      ToEntry(children[m].fields["data"], m) == Success(r.value[m]))
    ensures status == 200 && body != "" && !WellFormed(decoded) ==> r.Failure? && r.error.Schema?
  {
    if status != 200 then Failure(BadStatus(status))
    else if body == "" then Failure(EmptyBody)
    else match CheckListing(decoded)
      case Failure(e) => Failure(Schema(e))
      case Success(datas) =>
        match ToEntries(datas, 0)
        case Failure(e) => Failure(Schema(e))
        case Success(entries) => Success(entries)
  }
}
