/**
 * The Lambda entry point: read the bucket and key of the first record of an
 * S3 notification, extract that object as a table, transform it and load the
 * result into the destination bucket under the same key. Any exception is
 * re-raised unchanged.
 *
 * The object store is outside the model: reading the CSV object (`extract`)
 * and writing the CSV file (`load_s3`) are function parameters, and the
 * handler reports the calls it makes to them in order.
 */
module Handler {
  import opened Wrappers
  import opened Exceptions
  import opened Frames
  import opened Transform
  import opened UrlQuoting

  /** A JSON value as the Lambda runtime hands the event to the handler. */
  datatype Json =
    | JNull
    | JBool(b: bool)
    | JNumber(repr: string)
    | JString(s: string)
    | JArray(items: seq<Json>)
    | JObject(fields: map<string, Json>)

  /** `value[key]` with a string key: only a dictionary supports it. */
  function Member(value: Json, key: string): (r: Result<Json, Exception>)
    ensures r.Ok? <==> value.JObject? && key in value.fields
    ensures r.Ok? ==> r.value == value.fields[key]
    ensures r.Err? ==> r.error == (if value.JObject? then KeyError(key) else TypeError)
  {
    match value
    case JObject(fields) => if key in fields then Ok(fields[key]) else Err(KeyError(key))
    case _ => Err(TypeError)
  }

  /**
   * `value[0]`: the first item of a list, the first character of a string,
   * a missing key for a dictionary, unsupported otherwise.
   */
  function First(value: Json): (r: Result<Json, Exception>)
    ensures r.Ok? <==> (value.JArray? && |value.items| > 0) || (value.JString? && |value.s| > 0)
    ensures r.Ok? && value.JArray? ==> r.value == value.items[0]
    ensures r.Err? ==> r.error in {IndexError, KeyError("0"), TypeError}
  {
    match value
    case JArray(items) => if |items| > 0 then Ok(items[0]) else Err(IndexError)
    case JString(s) => if |s| > 0 then Ok(JString([s[0]])) else Err(IndexError)
    case JObject(_) => Err(KeyError("0"))
    case _ => Err(TypeError)
  }

  /** `unquote_plus(value, encoding='utf-8')`: a value that is not a string has no `replace`. */
  function UnquotePlusValue(value: Json): (r: Result<string, Exception>)
    ensures r.Ok? <==> value.JString?
    ensures r.Err? ==> r.error == AttributeError("replace")
  {
    if value.JString? then Ok(UnquotePlus(value.s)) else Err(AttributeError("replace"))
  }

  /**
   * The bucket name (as the event holds it) and the decoded object key of
   * the first record, looked up in the order the handler does.
   */
  function EventTarget(event: Json): (r: Result<(Json, string), Exception>)
    ensures r.Ok? ==> event.JObject? && "Records" in event.fields
    ensures r.Err? ==>
      r.error.KeyError? || r.error == IndexError || r.error == TypeError || r.error == AttributeError("replace")
  {
    var records :- Member(event, "Records");
    var first :- First(records);
    var s3 :- Member(first, "s3");
    var bucket :- Member(s3, "bucket");
    var bucketName :- Member(bucket, "name");
    var s3Object :- Member(s3, "object");
    var rawKey :- Member(s3Object, "key");
    var key :- UnquotePlusValue(rawKey);
    Ok((bucketName, key))
  }

  /** The calls the handler makes to the object store. */
  datatype Call =
    | Extract(bucket: Json, key: string)
    | LoadS3(table: Table, fileName: string, destination: string)

  /** A table as a data frame always holds one: distinct labels, full columns. */
  type ValidTable = t: Table | t.Valid() witness Table([], [], map[])

  /** Reading the CSV object `key` of `bucket` as a table indexed by passenger id. */
  type Fetch = (Json, string) -> Result<ValidTable, Exception>

  /** Writing `table` as CSV to `fileName` in `destination`. */
  type Upload = (Table, string, string) -> Outcome<Exception>

  /** What the handler returns or raises, and the store calls it makes on the way. */
  function HandlerSpec(event: Json, destination: string, fetch: Fetch, upload: Upload): (r: (Result<bool, Exception>, seq<Call>))
    ensures |r.1| <= 2 && (r.0.Ok? ==> r.0.value && |r.1| == 2)
  {
    match EventTarget(event)
    case Err(e) => (Err(e), [])
    case Ok((bucket, key)) =>
      var extract := [Extract(bucket, key)];
      match fetch(bucket, key)
      case Err(e) => (Err(e), extract)
      case Ok(table) =>
        var (transformed, outcome) := Transformed(table);
        match outcome
        case Fail(e) => (Err(e), extract)
        case Pass =>
          var calls := extract + [LoadS3(transformed, key, destination)];
          match upload(transformed, key, destination)
          case Fail(e) => (Err(e), calls)
          case Pass => (Ok(true), calls)
  }

  /**
   * `lambda_handler(event, context)`, with the destination bucket (read from
   * the environment by the source) as a parameter: returns `True` once the
   * transformed table is loaded, otherwise raises the first exception.
   */
  method LambdaHandler(event: Json, destination: string, fetch: Fetch, upload: Upload)
    returns (r: Result<bool, Exception>, calls: seq<Call>)
    ensures (r, calls) == HandlerSpec(event, destination, fetch, upload)
  {
    var target := EventTarget(event);
    if target.Err? {
      return Err(target.error), [];
    }
    var (bucket, key) := target.value;
    calls := [Extract(bucket, key)];
    var extracted := fetch(bucket, key);
    if extracted.Err? {
      return Err(extracted.error), calls;
    }
    var df := new Frame(extracted.value);
    var transformed := Transform.Transform(df);
    if transformed.Err? {
      return Err(transformed.error), calls;
    }
    var table := transformed.value.Value();
    calls := calls + [LoadS3(table, key, destination)];
    var loaded := upload(table, key, destination);
    if loaded.Fail? {
      return Err(loaded.error), calls;
    }
    return Ok(true), calls;
  }
}

module HandlerProperties {
  import opened Wrappers
  import opened Exceptions
  import opened Frames
  import opened Transform
  import opened UrlQuoting
  import opened Handler

  /**
   * The handler returns `True` exactly when every step succeeds; it then has
   * read the object named by the event and written its transformation,
   * under the same key, to the destination bucket.
   */
  lemma HandlerSucceedsIff(event: Json, destination: string, fetch: Fetch, upload: Upload)
    ensures var (r, calls) := HandlerSpec(event, destination, fetch, upload);
      r.Ok? <==>
        && EventTarget(event).Ok?
        && var (bucket, key) := EventTarget(event).value;
        && fetch(bucket, key).Ok?
        && Transformed(fetch(bucket, key).value).1 == Pass
        && upload(Transformed(fetch(bucket, key).value).0, key, destination) == Pass
    ensures var (r, calls) := HandlerSpec(event, destination, fetch, upload);
      r.Ok? ==>
        && r.value == true
        && var (bucket, key) := EventTarget(event).value;
        && calls == [Extract(bucket, key), LoadS3(Transformed(fetch(bucket, key).value).0, key, destination)]
  {
  }

  /**
   * Every failure is re-raised as it was raised: the error is that of the
   * event lookup, the read, the transformation or the write, in that order.
   */
  lemma HandlerReraises(event: Json, destination: string, fetch: Fetch, upload: Upload)
    ensures var (r, calls) := HandlerSpec(event, destination, fetch, upload);
      r.Err? ==>
        if EventTarget(event).Err? then r.error == EventTarget(event).error && calls == []
        else
          var (bucket, key) := EventTarget(event).value;
          && calls[0] == Extract(bucket, key)
          && if fetch(bucket, key).Err? then r.error == fetch(bucket, key).error && |calls| == 1
             else if Transformed(fetch(bucket, key).value).1.Fail? then
               r.error == Transformed(fetch(bucket, key).value).1.error && |calls| == 1
             else
               r.error == upload(Transformed(fetch(bucket, key).value).0, key, destination).error && |calls| == 2
  {
  }

  /**
   * Writes follow reads: the handler reads first, writes at most once and
   * only second, and what it writes is the transformation of what it read,
   * under the key it read it from.
   */
  lemma LoadFollowsExtract(event: Json, destination: string, fetch: Fetch, upload: Upload)
    ensures var (r, calls) := HandlerSpec(event, destination, fetch, upload);
      && |calls| <= 2
      && (|calls| > 0 ==> calls[0].Extract?)
      && (|calls| == 2 ==>
            && fetch(calls[0].bucket, calls[0].key).Ok?
            && var t := fetch(calls[0].bucket, calls[0].key).value;
            && Transformed(t).1 == Pass
            && calls[1] == LoadS3(Transformed(t).0, calls[0].key, destination))
  {
    var (r, calls) := HandlerSpec(event, destination, fetch, upload);
    if |calls| > 0 {
      FirstCallExtracts(event, destination, fetch, upload);
    }
    if |calls| == 2 {
      SecondCallLoads(event, destination, fetch, upload);
    }
  }

  /** A handler that calls the store at all reads the notified object first. */
  lemma FirstCallExtracts(event: Json, destination: string, fetch: Fetch, upload: Upload)
    requires |HandlerSpec(event, destination, fetch, upload).1| > 0
    ensures EventTarget(event).Ok?
    ensures HandlerSpec(event, destination, fetch, upload).1[0]
            == Extract(EventTarget(event).value.0, EventTarget(event).value.1)
  {
  }

  /** A handler that calls the store twice loads the transformation of what it read. */
  lemma SecondCallLoads(event: Json, destination: string, fetch: Fetch, upload: Upload)
    requires |HandlerSpec(event, destination, fetch, upload).1| == 2
    ensures EventTarget(event).Ok?
    ensures var (bucket, key) := EventTarget(event).value;
      && fetch(bucket, key).Ok?
      && Transformed(fetch(bucket, key).value).1 == Pass
      && HandlerSpec(event, destination, fetch, upload).1
         == [Extract(bucket, key), LoadS3(Transformed(fetch(bucket, key).value).0, key, destination)]
  {
  }

  /** `event['Records'][0]['s3']` exists, whatever other fields the event and the record carry. */
  ghost predicate HasS3Entry(event: Json) {
    && event.JObject? && "Records" in event.fields
    && var records := event.fields["Records"];
    && records.JArray? && records.items != []
    && records.items[0].JObject? && "s3" in records.items[0].fields
  }

  /** The `s3` entry of the first record. */
  ghost function S3Entry(event: Json): Json
    requires HasS3Entry(event)
  {
    event.fields["Records"].items[0].fields["s3"]
  }

  /** The `s3` entry holds a bucket with a `name` and an object with a `key`, of any type. */
  ghost predicate HasBucketAndKey(s3: Json) {
    && s3.JObject? && "bucket" in s3.fields && "object" in s3.fields
    && s3.fields["bucket"].JObject? && "name" in s3.fields["bucket"].fields
    && s3.fields["object"].JObject? && "key" in s3.fields["object"].fields
  }

  /**
   * `event['Records'][0]['s3']` exists and holds a bucket with a `name` and
   * an object with a string `key`, whatever other fields any of them carry.
   */
  ghost predicate NamesObject(event: Json) {
    && HasS3Entry(event)
    && HasBucketAndKey(S3Entry(event))
    && S3Entry(event).fields["object"].fields["key"].JString?
  }

  /**
   * The handler finds a target exactly when the first record names an
   * object; it is then the record's bucket name and its decoded key.
   */
  lemma EventTargetIff(event: Json)
    ensures EventTarget(event).Ok? <==> NamesObject(event)
    ensures NamesObject(event) ==>
      EventTarget(event).value
      == (S3Entry(event).fields["bucket"].fields["name"], UnquotePlus(S3Entry(event).fields["object"].fields["key"].s))
  {
  }

  /** An event of the shape the handler reads: one record naming a bucket and a raw key, then any other records. */
  function Notification(bucket: Json, rawKey: string, others: seq<Json>): Json
  {
    var s3 := JObject(map[
      "bucket" := JObject(map["name" := bucket]),
      "object" := JObject(map["key" := JString(rawKey)])]);
    JObject(map["Records" := JArray([JObject(map["s3" := s3])] + others)])
  }

  /**
   * For a notification whose first record carries a key encoded with
   * `quote_plus`, the handler reads back the object's own key; records
   * after the first are ignored.
   */
  lemma NotificationTarget(bucket: Json, key: string, others: seq<Json>)
    ensures EventTarget(Notification(bucket, QuotePlus(key), others)) == Ok((bucket, key))
  {
    var event := Notification(bucket, QuotePlus(key), others);
    EventTargetIff(event);
    assert NamesObject(event);
    UnquotePlusQuotePlus(key);
  }

  /**
   * Only the first record counts: cutting the list of records down to its
   * first entry never changes the outcome or the calls, whatever else the
   * event holds.
   */
  lemma OnlyFirstRecord(event: Json, first: Json, others: seq<Json>, destination: string, fetch: Fetch, upload: Upload)
    requires event.JObject? && "Records" in event.fields && event.fields["Records"] == JArray([first] + others)
    ensures var one := event.(fields := event.fields["Records" := JArray([first])]);
      HandlerSpec(event, destination, fetch, upload) == HandlerSpec(one, destination, fetch, upload)
  {
    var one := event.(fields := event.fields["Records" := JArray([first])]);
    assert Member(one, "Records") == Ok(JArray([first]));
    assert First(JArray([first] + others)) == First(JArray([first]));
    assert EventTarget(event) == EventTarget(one);
  }

  /** An event without records fails before any call to the store. */
  lemma MissingRecords(event: Json, destination: string, fetch: Fetch, upload: Upload)
    requires event.JObject? && "Records" !in event.fields
    ensures HandlerSpec(event, destination, fetch, upload) == (Err(KeyError("Records")), [])
  {
  }

  /** An empty list of records fails the same way, with an index error, whatever else the event holds. */
  lemma EmptyRecords(event: Json, destination: string, fetch: Fetch, upload: Upload)
    requires event.JObject? && "Records" in event.fields && event.fields["Records"] == JArray([])
    ensures HandlerSpec(event, destination, fetch, upload) == (Err(IndexError), [])
  {
  }

  /** A key that is not a string fails when it is decoded, before the object is read. */
  lemma KeyNotAString(event: Json, destination: string, fetch: Fetch, upload: Upload)
    requires HasS3Entry(event) && HasBucketAndKey(S3Entry(event))
    requires !S3Entry(event).fields["object"].fields["key"].JString?
    ensures HandlerSpec(event, destination, fetch, upload) == (Err(AttributeError("replace")), [])
  {
  }
}
