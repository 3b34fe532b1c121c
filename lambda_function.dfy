/** The S3 "object created" notification handler `lambda_handler`: it reads the
    storage key of the first record, keeps the last '/'-separated segment of it
    as the package name and returns a one-field payload with a greeting. */
module LambdaFunction {
  import opened PyStr

  datatype Option<+T> = None | Some(value: T)

  datatype Result<+T, +E> = Ok(value: T) | Err(error: E)

  /** The notification event as delivered. Every field the handler subscripts
      may be absent, since the handler subscripts without checking; the other
      fields (eventName, bucket) are there only to show that it never reads them. */
  datatype S3Object = S3Object(key: Option<string>)
  datatype S3Entity = S3Entity(bucket: Option<string>, obj: Option<S3Object>)
  datatype Record = Record(eventName: Option<string>, s3: Option<S3Entity>)
  datatype Event = Event(records: Option<seq<Record>>)

  /** The exception the unchecked lookup chain raises: a dictionary key that is
      missing, or `[0]` on an empty record list. */
  datatype Error = KeyError(field: string) | IndexError

  /** The returned dictionary `{'message': ...}`: exactly one field. */
  datatype Payload = Payload(message: string)

  const Prefix: string := "Hello there, the package name is "

  /** The record list is present and not empty, and its first record has
      `s3`, `object` and `key`: the input shape the handler needs. */
  predicate HasFirstKey(event: Event)
  {
    && event.records.Some?
    && |event.records.value| > 0
    && event.records.value[0].s3.Some?
    && event.records.value[0].s3.value.obj.Some?
    && event.records.value[0].s3.value.obj.value.key.Some?
  }

  /** `event['Records'][0]['s3']['object']['key']` on an event that has it. */
  function FirstKey(event: Event): (key: string)
    requires HasFirstKey(event)
  {
    event.records.value[0].s3.value.obj.value.key.value
  }

  /** `'Hello there, the package name is {}!'.format(name)`. */
  function Message(name: string): (m: string)
    ensures |m| == |Prefix| + |name| + 1
    ensures m[..|Prefix|] == Prefix && m[|m| - 1] == '!'
    ensures m[|Prefix|..|m| - 1] == name
  {
    Prefix + name + "!"
  }

  /** The handler: the lookups in the order Python evaluates them, each raising
      when its key or index is missing, then the last segment of the key and the
      greeting built from it. */
  function LambdaHandler(event: Event): (r: Result<Payload, Error>)
    ensures r.Ok? <==> HasFirstKey(event)
    ensures r.Ok? ==> r.value.message == Prefix + LastSegment(FirstKey(event)) + "!"
    ensures event.records.None? ==> r == Err(KeyError("Records"))
    ensures event.records == Some([]) ==> r == Err(IndexError)
    ensures event.records.Some? && |event.records.value| > 0 ==>
      var first := event.records.value[0];
      && (first.s3.None? ==> r == Err(KeyError("s3")))
      && (first.s3.Some? && first.s3.value.obj.None? ==> r == Err(KeyError("object")))
      && ((first.s3.Some? && first.s3.value.obj.Some? && first.s3.value.obj.value.key.None?)
            ==> r == Err(KeyError("key")))
  {
    match event.records
    case None => Err(KeyError("Records"))
    case Some(records) =>
      if |records| == 0 then Err(IndexError)
      else
        match records[0].s3
        case None => Err(KeyError("s3"))
        case Some(s3) =>
          match s3.obj
          case None => Err(KeyError("object"))
          case Some(obj) =>
            match obj.key
            case None => Err(KeyError("key"))
            case Some(key) => Ok(Payload(Message(LastSegment(key))))
  }

  /** The greeting gives back the name it was built from. */
  lemma MessageInjective(a: string, b: string)
    requires Message(a) == Message(b)
    ensures a == b
  {
    var m := Message(a);
    assert a == m[|Prefix|..|m| - 1];
  }

  /** On a well-shaped event, the handler greets a name exactly when that name
      is the last segment of the first record's key; such a name holds no '/',
      ends the key, and what comes before it in the key is empty or ends with '/'. */
  lemma GreetedName(event: Event, name: string)
    requires HasFirstKey(event)
    ensures LambdaHandler(event) == Ok(Payload(Prefix + name + "!")) <==> name == LastSegment(FirstKey(event))
    ensures LambdaHandler(event) == Ok(Payload(Prefix + name + "!")) ==>
      && Sep !in name
      && exists prefix :: FirstKey(event) == prefix + name && (prefix == [] || prefix[|prefix| - 1] == Sep)
  {
    var key := FirstKey(event);
    if LambdaHandler(event) == Ok(Payload(Prefix + name + "!")) {
      MessageInjective(name, LastSegment(key));
      var prefix := key[..|key| - |name|];
      assert key == prefix + name;
    }
  }

  /** Only `Records[0]` is read: appending records changes nothing. */
  lemma ExtraRecordsIgnored(records: seq<Record>, more: seq<Record>)
    requires |records| > 0
    ensures LambdaHandler(Event(Some(records + more))) == LambdaHandler(Event(Some(records)))
  {
    assert (records + more)[0] == records[0];
  }

  /** Of the first record only the key is read: two events whose first
      records carry the same key give the same payload, whatever else they hold. */
  lemma SameFirstKeySamePayload(e1: Event, e2: Event)
    requires HasFirstKey(e1) && HasFirstKey(e2)
    requires FirstKey(e1) == FirstKey(e2)
    ensures LambdaHandler(e1) == LambdaHandler(e2)
  {
  }

  /** Records beyond the first cannot turn a failure into a payload either:
      the outcome depends on the first record alone. */
  lemma SameFirstRecordSameOutcome(rs1: seq<Record>, rs2: seq<Record>)
    requires |rs1| > 0 && |rs2| > 0 && rs1[0] == rs2[0]
    ensures LambdaHandler(Event(Some(rs1))) == LambdaHandler(Event(Some(rs2)))
  {
  }

  /** An event whose only record has the given key. */
  function EventWithKey(key: string): Event
  {
    Event(Some([Record(Some("ObjectCreated:Put"), Some(S3Entity(Some("bucket"), Some(S3Object(Some(key))))))]))
  }

  lemma NestedKeyScenario()
    ensures LambdaHandler(EventWithKey("uploads/2023/package.zip"))
         == Ok(Payload("Hello there, the package name is package.zip!"))
  {
    LastSegmentUnique("uploads/2023/package.zip", "uploads/2023/", "package.zip");
    assert Prefix + "package.zip" + "!" == "Hello there, the package name is package.zip!";
  }

  lemma PlainKeyScenario()
    ensures LambdaHandler(EventWithKey("simplefile.txt"))
         == Ok(Payload("Hello there, the package name is simplefile.txt!"))
  {
    LastSegmentNoSep("simplefile.txt");
    assert Prefix + "simplefile.txt" + "!" == "Hello there, the package name is simplefile.txt!";
  }

  lemma DeepKeyScenario()
    ensures LambdaHandler(EventWithKey("a/b/c/d.tar.gz"))
         == Ok(Payload("Hello there, the package name is d.tar.gz!"))
  {
    LastSegmentUnique("a/b/c/d.tar.gz", "a/b/c/", "d.tar.gz");
    assert Prefix + "d.tar.gz" + "!" == "Hello there, the package name is d.tar.gz!";
  }

  lemma TrailingSlashScenario()
    ensures LambdaHandler(EventWithKey("uploads/"))
         == Ok(Payload("Hello there, the package name is !"))
  {
    LastSegmentTrailingSep("uploads/");
    assert Prefix + "" + "!" == "Hello there, the package name is !";
  }

  lemma EmptyRecordsScenario()
    ensures LambdaHandler(Event(Some([]))) == Err(IndexError)
  {
  }

  lemma MissingKeyScenario()
    ensures LambdaHandler(Event(Some([Record(None, Some(S3Entity(None, Some(S3Object(None)))))])))
         == Err(KeyError("key"))
  {
  }
}
