# Login-event queue consumer: a Dafny model

The consumer in `src/main.py` reads login events from an SQS queue. It turns each event into a row of the `user_logins` table, with the IP address and the device id masked by a salted SHA-256 digest. It deletes every message it has read and writes the batch's rows with one bulk insert. This project models two parts of that file and proves properties of them:

- **`LoginMessage`** (module `Login`): the constructor's field extraction, the major-version parse, the salted masking in `calculateHash`, and the column order of `getTuple`. `ReadFields` performs the constructor's reads and checks in its order and returns the raw values. `Normalize` masks them and yields a `Result<LoginRecord, Error>`. Every exception the constructor can raise on a parsed body becomes an `Error` value.
- **The `__main__` loop** (module `Ingest`): one pass of the loop (`Iterate`) and a run of several passes (`Run`). The queue and the database appear only as a trace of `Receive`, `Delete` and `Insert` events.

Supporting modules:

- `PyText` models `str.partition` and the whitespace `int()` skips around a number. Among ASCII characters that is only space and `\t \n \v \f \r`. The separators U+001C..U+001F count as whitespace for `str.isspace()`, but `int()` rejects them.
- `PyInt` models `int(text)`. It also defines `str(n)` as the round-trip partner of `int()`.
- `Json` holds the decoded JSON value.
- `Wrappers` holds `Option` and `Result`.

The collaborators become parameters:

- SHA-256 is a function parameter `hash: string -> string`. Because it is a mathematical function, it is deterministic.
- The clock is a `today: Date` parameter.
- `receive_message` responses are an input sequence.
- `delete_message` and `executemany`/`commit` are events in the returned trace.

`Iterate` takes the normalizer, the two statements inside the `try`, as a parameter: a function from a message body to a row or an error. `Run` takes one normalizer per pass. In the program each is `LoginNormalizer(salt, date, hash)`, which is `Normalize` for that pass's date followed by `GetTuple`. `Run`'s properties hold for any normalizers.

One pass also has a functional reference, `PassOf`, giving the outcome and the events of a pass as a function of the poll response. It walks the batch message by message (`Walk`). `PassReference` proves that this walk equals a second, declarative description: the messages before the first unreadable one are deleted in order, and only a batch read to the end has its rows inserted. `Iterate` is proved equal to `PassOf`. The whole loop has a reference too, `RunTo`, which runs the passes in order until one does not go round again. The trace of `Run` is proved to be `Passes`, each pass's poll followed by that pass's events, and `Run` as a whole is proved equal to `RunTo`.

Four behaviours of the code that its comments do not spell out; the model follows the code in each:

- **Insert failure.** Delivery is not at-least-once. The code deletes every message of a batch before the bulk insert. If the insert then fails, the batch is lost. `Iterate` states this ordering: the insert is always the last event of a pass.
- **Empty batch.** The loop stops only when the response has no `Messages` key, not on a poll that returns zero messages. A present but empty list makes the loop go round again, with no delete and no insert.
- **Field types.** Missing fields and bad versions are not the only failures. A non-string `ip` or `device_id` also fails, because `value + secret_salt` raises a TypeError. A non-string `app_version` fails because it has no `partition`. A body that is not a JSON object fails as soon as it is indexed. All of these are raised inside the `try`, so they are caught and the message is still deleted.
- **Unreadable messages.** A body that `json.loads` rejects, or a message without a `ReceiptHandle`, fails before the `try`. The exception ends the program. That message and the ones after it are not deleted, and nothing from the batch is inserted.

## Model

| member | source | states |
|---|---|---|
| `Login.ReadFields` | src/main.py:17-31 | Succeeds exactly when the body is an object that has all six keys, has string `app_version`, `ip` and `device_id`, and has a major version `int()` accepts. On success it hands back `user_id`, `device_type` and `locale` unchanged, the raw `ip` and `device_id` texts, and as version `int()` of the text before the first `.`. A failure always names a defect the body really has. |
| `Login.Normalize` | src/main.py:10-31 | Fails exactly when `ReadFields` fails, with the same error. On success `user_id`, `device_type`, `locale` and `app_version` are the values `ReadFields` read. `masked_ip` is the digest of the raw ip followed by the salt, and `masked_device_id` likewise. `create_date` is the clock's date. |
| `Login.TextError` | src/main.py:24-31 | For a key read as a string, the error raised when it is unusable is a genuine defect: the key is missing (KeyError) or its value is not a string. |
| `Login.MajorVersion` | src/main.py:24 | A rejected version reports as its head the text up to, but not including, the first `.` of the version string (or all of it when there is no `.`). |
| `Login.VersionIgnoresMinor` | src/main.py:24 | For a head without `.`, the result for `head + "." + rest` equals the result for `head`, whatever `rest` is. |
| `Login.MajorVersionDotted` | src/main.py:24 | `str(n) + "." + rest` has major version `n`. |
| `Login.MajorVersionUndotted` | src/main.py:24 | A version without a `.` is parsed whole: `str(n)` has major version `n`. |
| `Login.SampleVersion` | src/main.py:24 | "3.2.1" has major version 3. |
| `Login.DottedVersionAccepted` | src/main.py:17-31 | An event with every field in place and version `str(n) + "." + rest` is accepted with version `n`. |
| `Login.DigitlessVersionRejected` | src/main.py:17-24 | Once the three pass-through keys are present, a version text without any digit is rejected as a malformed version naming the text before its first `.`. |
| `Login.MissingDeviceIdRejected` | src/main.py:17-31 | When every earlier read succeeds, a missing `device_id` is reported as a missing `device_id`: the checks run in the constructor's order. |
| `Login.SeparatorVersionRejected` | src/main.py:24 | The version "\x1c3.0" is rejected as `MalformedVersion("\x1c3")`: the separator U+001C before the digit is not skipped. |
| `Login.SampleEventAccepted` | src/main.py:17-31 | A complete event with version "3.2.1" is accepted, with `app_version` 3. |
| `Login.SampleEventRejected` | src/main.py:24 | The same event with version "abc" is rejected as `MalformedVersion("abc")`. |
| `Login.CalculateHash` | src/main.py:39-49 | The mask is the digest of the value with the salt appended. Its properties are stated by `Login.SaltedValuesDiffer`, `Login.SaltsDiffer`, `Login.MaskIsInjective` and `Login.MaskDependsOnSalt`. |
| `Login.SaltedValuesDiffer` | src/main.py:46 | With no assumption on the digest: under one salt, two values reach the digest as the same input if and only if they are equal. When two different values get the same mask from `CalculateHash`, their two digest inputs differ and hash alike: a collision of SHA-256 itself. |
| `Login.SaltsDiffer` | src/main.py:46 | With no assumption on the digest: one value under two salts reaches the digest as the same input if and only if the salts are equal. When two different salts give one value the same mask from `CalculateHash`, the two digest inputs differ and hash alike: a collision of SHA-256 itself. |
| `Login.MaskIsInjective` | src/main.py:39-49 | Corollary for an idealised collision-free digest: with one salt, two values mask alike if and only if they are equal. |
| `Login.MaskDependsOnSalt` | src/main.py:46 | Corollary for an idealised collision-free digest: two different salts give different masks of the same value. |
| `Login.GetTuple` | src/main.py:33-37 | The tuple has seven entries. Position i holds the attribute for the i-th column of the INSERT statement at src/main.py:96. Reading the tuple back gives the record, so nothing is lost or swapped. |
| `PyText.Partition` | src/main.py:24 | `s.partition(sep)`: the head contains no `sep`. When `sep` occurs, `s` is head, `sep`, tail. Otherwise the head is all of `s` and the tail is empty. |
| `PyText.PartitionAtFirst` | src/main.py:24 | The split is at the first separator: for a `sep`-free `h`, `h + [sep] + t` partitions into `h` and `t`. |
| `PyText.Strip` | src/main.py:24 | The trimming `int()` does: the result is no longer than the input and has no whitespace at either end. |
| `PyText.StripPadded` | src/main.py:24 | Stripping removes exactly the surrounding whitespace: a trimmed text padded on both sides strips back to itself. |
| `PyText.StripTrimmed` | src/main.py:24 | A text with no whitespace at its ends is unchanged by stripping. |
| `PyInt.ParseInt` | src/main.py:24 | `int(text)` on a string: strip the whitespace `int()` skips, then read an optionally signed numeral. Its properties are stated by `PyInt.ParseShow` and `PyInt.ParseShowPlain` (it reads `str(n)` back as `n`), by `PyInt.ParseNeedsDigit` (it rejects any text without a digit) and by `PyInt.LeadingSeparatorRejected` (it does not skip U+001C..U+001F). |
| `PyInt.ReadSigned` | src/main.py:24 | A text the integer reader accepts contains at least one digit. |
| `PyInt.ParseNeedsDigit` | src/main.py:24 | `int()` of a text without any digit fails, so "abc", "" and "-" are all rejected. |
| `PyInt.ShowNatValue` | src/main.py:24 | The decimal writing of a natural number is a numeral whose value is that number. |
| `PyInt.ReadShow` | src/main.py:24 | The integer reader reads `str(n)` back as `n`, negative numbers included. |
| `PyInt.ReadUnsigned` | src/main.py:24 | An unsigned numeral reads as its value. |
| `PyInt.ReadNegative` | src/main.py:24 | A numeral after a minus sign reads as the negated value. |
| `PyInt.ParseShow` | src/main.py:24 | Round trip: `int(pre + str(n) + post) == n` whenever `pre` and `post` consist of whitespace `int()` skips. |
| `PyInt.LeadingSeparatorRejected` | src/main.py:24 | `int()` rejects a text that starts with one of the separators U+001C..U+001F, whatever follows, although `str.isspace()` calls them whitespace. |
| `PyInt.ReadNeedsLeadingDigit` | src/main.py:24 | After stripping, a text that starts with neither a sign nor a digit is rejected. |
| `PyText.StripKeepsStart` | src/main.py:24 | A text that does not start with whitespace keeps its first character through stripping. |
| `PyInt.ParseShowPlain` | src/main.py:24 | `int(str(n)) == n`, and `str(n)` contains no `.`. |
| `Ingest.LoginNormalizer` | src/main.py:82-83 | The two statements inside the `try`: construct the message, then take its tuple. Its properties are stated by `Ingest.LoginRows`. |
| `Ingest.LoginRows` | src/main.py:81-83 | The normalizer used in the loop succeeds exactly on login messages. The row it yields reads back as the normalized record. |
| `Ingest.Rows` | src/main.py:77-83 | A batch never yields more rows than it has messages. |
| `Ingest.Attempt` | src/main.py:81-89 | The try/except/finally on one readable message adds that message's row only if normalization succeeds. It deletes the message on either path. |
| `Ingest.ReadBatch` | src/main.py:77-89 | The `for` loop over a batch stops exactly at the first unreadable message, or after the last message when all are readable, and reports a crash exactly in the first case. By then the messages before that point are deleted once each, in arrival order, and the buffer holds exactly their rows. |
| `Ingest.FirstUnreadable` | src/main.py:77-79 | The position where the loop leaves a batch: every message before it is readable, and the message at it, if any, is not. |
| `Ingest.DeletesOf` | src/main.py:87-89 | The deletes of the first n messages: exactly one event per message. `Ingest.DeletesInOrder` states which. |
| `Ingest.DeletesInOrder` | src/main.py:87-89 | The deletes of the first n messages are, in arrival order, one delete of each message's receipt handle, and nothing else. |
| `Ingest.Flush` | src/main.py:91-101 | After the loop: at most one insert, present exactly when the buffer is non-empty, and it carries the whole buffer. `Ingest.FlushAfterDeletes` places it after the deletes. |
| `Ingest.FlushAfterDeletes` | src/main.py:87-101 | After one delete per message, the flush adds at most one insert, non-empty and last. With distinct receipt handles each message occurs exactly once as a delete. |
| `Ingest.Iterate` | src/main.py:63-110 | One pass of the loop. Its outcome and events are exactly those of the reference `PassOf`. No `Messages` key means the loop stops with no delete and no insert. A batch read to the end means every message is deleted once, in arrival order, and the buffer is exactly the batch's accepted rows. Exactly one insert of that buffer follows, and only if the buffer is non-empty. With distinct receipt handles each message occurs exactly once as a delete. An unreadable message ends the run: the messages before it are deleted and nothing is inserted. An insert, when there is one, is the last event. |
| `Ingest.RowsAppend` | src/main.py:77-83 | Rows keep arrival order: the rows of `a + b` are the rows of `a` followed by those of `b`. |
| `Ingest.RowsUpToAppend` | src/main.py:77-83 | The buffer after the first `|a| + k` messages of `a + b` is the rows of `a` followed by those of the first `k` messages of `b`. |
| `Ingest.RowsAreTheAccepted` | src/main.py:81-86 | A row is in the buffer if and only if it is the row of some message in the batch whose normalization succeeded. |
| `Ingest.RejectedMessageDropsOut` | src/main.py:81-86 | In a batch of three whose middle message is rejected, the buffer holds the first and the third message's rows, in that order. |
| `Ingest.SingleOccurrence` | src/main.py:87-89 | An event that appears at one position and nowhere else occurs exactly once in the trace. |
| `Ingest.AppendPass` | src/main.py:63-110 | Appending a pass whose only insert is its last event, and carries that batch's rows, keeps two facts about the trace. Every insert is non-empty and closes its pass. Every insert carries one batch's rows. |
| `Ingest.Walk` | src/main.py:77-101 | Walking a batch from any buffer ends in a crash or goes round again; it never stops the loop, which only a missing `Messages` key does. |
| `Ingest.WalkStep` | src/main.py:77-89 | A readable message is deleted first, and the walk goes on with its row, if any, added to the buffer. |
| `Ingest.WalkFrom` | src/main.py:77-89 | After the first i messages, all readable, the walk has deleted them in order and buffered exactly their rows. |
| `Ingest.PassReference` | src/main.py:77-101 | The walk of a batch equals the declarative pass. If some message is unreadable, the pass crashes after the deletes of the messages before the first such one. Otherwise it goes round again after all the deletes and the flush of the batch's rows. |
| `Ingest.PassInserts` | src/main.py:91-101 | In the reference pass, an insert is non-empty, is the last event, and carries exactly the rows of the batch that was polled. |
| `Ingest.PassesInserts` | src/main.py:63-101 | In the trace of any number of reference passes, every insert is non-empty, is followed only by the next poll, and carries the rows of one of those batches. |
| `Ingest.RunToStays` | src/main.py:108-110 | Once the reference run has left the loop, later responses change neither its outcome nor its trace. |
| `Ingest.RunToPasses` | src/main.py:63-110 | A reference run that reached its n-th pass has as trace the first n passes in order. Every pass before the n-th went round again, and the n-th decides the outcome. |
| `Ingest.RunPasses` | src/main.py:63-110 | The loop over scripted responses: its outcome and trace are the reference run's after the passes it made, and the run before its last pass was still going. It stops early only when a pass does not go round again. |
| `Ingest.RunShape` | src/main.py:63-110 | For a run shaped like the reference, the loop continues only after a complete batch. It stops exactly at the first response without `Messages`, and that poll is the last event. Every insert closes its pass and carries one batch's rows. |
| `Ingest.Run` | src/main.py:63-110 | Over scripted responses, the outcome and trace equal the reference run `RunTo` over all the responses. The trace is exactly `Passes`: each pass's poll followed by the events of the reference pass for that response. Every pass but the last ended `Continue`, and the last pass's outcome is the run's. The loop continues only after a complete batch. It stops at the first response without `Messages`, and that poll is the last event. Every insert is non-empty and is followed only by the next poll. Every insert carries exactly the rows of one batch, so the buffer starts empty on every pass. |

## Left out

- SHA-256 itself (`hashlib`, the `.encode('utf-8')` step and the hex encoding) is the `hash` parameter. Its 64-character lowercase hex form is an assumption, not proved. No function from all texts to 64-character digests is injective, so the `Injective` hypothesis of `MaskIsInjective` and `MaskDependsOnSalt` never holds of SHA-256. Those two lemmas are idealised corollaries. What holds of the real digest is `SaltedValuesDiffer` and `SaltsDiffer`: a mask collision between different values, or between different salts, is a SHA-256 collision.
- Login.MaskDependsOnSalt: the lemma shows only that, under collision resistance, different salts give different masks. It does not show the stronger property that a mask never equals the raw value, because that depends on SHA-256's output and cannot be stated about an opaque digest.
- `json.loads` is not modelled. A body is either a decoded `JsonValue` or marked unreadable. JSON numbers are `int` or `real`, and duplicate keys are not represented.
- Strings are sequences of Unicode scalar values. A lone surrogate, which `json.loads` can produce and `.encode('utf-8')` would reject, cannot be represented.
- PyInt.ParseInt: accepts ASCII digits only; `int()` also accepts other Unicode decimal digits. It also has no digit-count limit, while Python 3.11 and later rejects texts over 4300 digits. The interpreter version is not fixed by the source.
- `datetime.datetime.now().date()` is read once per pass (`Iterate`'s normalizer, one of `Run`'s `passes`). The source reads it once per message, so a batch processed across midnight could carry two dates.
- The `boto3` and `psycopg2` plumbing is not modelled: connect, cursor, commit, close, queue URL, `MaxNumberOfMessages=16` and `WaitTimeSeconds=5`. A failing insert is not modelled either: the source does not handle it, and neither does the model. Also not modelled is a failure to adapt a non-scalar `user_id`, `device_type` or `locale` value when the row is inserted.
- `Run` follows a finite script of responses. The real loop polls forever, so a run that is still going when the script ends reports `Continue`.
- The `print` calls, the hard-coded salt and the queue URL are not modelled.
