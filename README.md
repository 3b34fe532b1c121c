# S3 upload greeting handler, modelled in Dafny

The repository is one AWS Lambda function, `lambda_handler` in
`lambda_function.py`. It is triggered by an S3 "object created" notification.
It reads the storage key of the first record
(`event['Records'][0]['s3']['object']['key']`), keeps the text after the last
`/` of that key as the package name (`rsplit('/')[-1]`), and returns
`{'message': 'Hello there, the package name is <name>!'}`.

The model has two modules:

- `PyStr` (`py_str.dfy`) gives the Python string operations the handler uses,
  specialised to the separator `/`: `str.rsplit('/')` as `RSplit`, its inverse
  `'/'.join` as `Join`, and `rsplit('/')[-1]` as `LastSegment`.
- `LambdaFunction` (`lambda_function.dfy`) gives the event as a typed datatype.
  Each field the handler subscripts (`Records`, `s3`, `object`, `key`) is an
  `Option`, because the handler subscripts without checking. The handler
  `LambdaHandler` is a function returning either a `Payload` or the `Error`
  Python raises: `KeyError` naming the missing dictionary key, or `IndexError`
  for `[0]` on an empty record list. Dafny's `object` is a keyword, so the
  S3 `object` field is called `obj`.

The handler is a function of the event alone. It keeps no state, so the same
event always gives the same result. The payload datatype has exactly one field,
`message`.

Two behaviours of the code are worth stating directly:

- `lambda_handler` never checks that the key is non-empty. An empty key gives
  the empty name, and so does a key ending in `/`.
- A failing lookup raises the Python exception for that lookup: `KeyError`
  naming the missing dictionary key, or `IndexError` for `[0]` on an empty
  record list. There is no single "shape" error; the model keeps each
  exception, in Python's evaluation order.

## Model

| member | source | states |
|---|---|---|
| `PyStr.RSplit` | lambda_function.py:5 | `key.rsplit('/')` is a non-empty list of pieces, no piece holds `/`, and joining the pieces with `/` gives back the key |
| `PyStr.RSplitJoin` | lambda_function.py:5 | the converse round trip: splitting a `/`-join of `/`-free pieces gives back exactly those pieces |
| `PyStr.JoinInjective` | lambda_function.py:5 | two non-empty lists of `/`-free pieces with the same join are equal, so the split of a key is unique |
| `PyStr.JoinCountSep` | lambda_function.py:5 | joining n `/`-free pieces with `/` yields a string with exactly n - 1 `/` characters |
| `PyStr.RSplitLength` | lambda_function.py:5 | the split has one more piece than the key has `/` characters |
| `PyStr.LastSegment` | lambda_function.py:5 | `rsplit('/')[-1]` holds no `/`, is a suffix of the key, and is either the whole key or preceded by a `/` in it |
| `PyStr.LastSegmentUnique` | lambda_function.py:5 | any split of the key into a prefix that is empty or ends in `/` and a `/`-free name has `LastSegment(key)` as its name; with `LastSegment`'s contract this characterises the last segment both ways |
| `PyStr.LastSegmentNoSep` | lambda_function.py:5 | a key without `/` is its own display name |
| `PyStr.LastSegmentTrailingSep` | lambda_function.py:5 | a key ending in `/` has the empty display name |
| `LambdaFunction.Message` | lambda_function.py:7 | the greeting is the fixed prefix, then the name, then `!`, of length prefix + name + 1 |
| `LambdaFunction.MessageInjective` | lambda_function.py:7 | the greeting determines the name it was built from |
| `LambdaFunction.LambdaHandler` | lambda_function.py:1-9 | a payload is returned exactly when `Records` is present and non-empty and its first record has `s3`, `object` and `key` (the predicate `HasFirstKey`, with `FirstKey` reading `event['Records'][0]['s3']['object']['key']`, lambda_function.py:5); its message is the prefix, then the last segment of that key, then `!`; otherwise the result is `KeyError('Records')`, `IndexError`, `KeyError('s3')`, `KeyError('object')` or `KeyError('key')`, the first lookup that fails in evaluation order, and no payload |
| `LambdaFunction.GreetedName` | lambda_function.py:5-9 | on an event with a first-record key, the handler greets a name exactly when it is the last segment of that key; such a name holds no `/`, and the key is a prefix that is empty or ends in `/`, followed by the name |
| `LambdaFunction.ExtraRecordsIgnored` | lambda_function.py:5 | appending records after a non-empty record list does not change the result |
| `LambdaFunction.SameFirstRecordSameOutcome` | lambda_function.py:5 | two record lists with the same first record give the same result, payload or error |
| `LambdaFunction.SameFirstKeySamePayload` | lambda_function.py:5 | two events whose first records carry the same key give the same payload, whatever their other fields hold |
| `LambdaFunction.NestedKeyScenario` | lambda_function.py:5-9 | key `uploads/2023/package.zip` gives `Hello there, the package name is package.zip!` |
| `LambdaFunction.PlainKeyScenario` | lambda_function.py:5-9 | key `simplefile.txt` gives `Hello there, the package name is simplefile.txt!` |
| `LambdaFunction.DeepKeyScenario` | lambda_function.py:5-9 | key `a/b/c/d.tar.gz` gives `Hello there, the package name is d.tar.gz!` |
| `LambdaFunction.TrailingSlashScenario` | lambda_function.py:5-9 | key `uploads/` gives `Hello there, the package name is !` |
| `LambdaFunction.EmptyRecordsScenario` | lambda_function.py:5 | an empty record list fails with `IndexError` |
| `LambdaFunction.MissingKeyScenario` | lambda_function.py:5 | a first record whose `object` lacks `key` fails with `KeyError('key')` |

## Left out

- The `print` calls that log the raw event and the message (lambda_function.py:2-3, 8). They write to the Lambda log stream and do not affect the result.
- The `context` parameter (lambda_function.py:1). It is runtime metadata the handler never uses.
- Fields of the wrong type. A `Records` value that is not a list, or a `key` that is not a string, would raise `TypeError` or `AttributeError` in Python. The typed event cannot express them.
- Python's general `str.format` and dictionary machinery. Only the concatenation and the four lookups the handler performs are modelled.
- The Lambda runtime, S3 event delivery, and JSON decoding of the event and encoding of the payload. These happen outside the handler.
- An exception in the model is a value, `Err(...)`. How the runtime reports it to the caller is not modelled.
