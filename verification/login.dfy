/** `LoginMessage` from src/main.py: a flat JSON login event turned into the
    seven-column row stored in `user_logins`, with the IP address and the
    device id masked by a salted hash. */
module Login {
  import opened Wrappers
  import opened Json
  import opened PyText
  import opened PyInt

  /** A calendar date, as `datetime.date`. */
  datatype Date = Date(year: int, month: int, day: int)

  /** The digest function: SHA-256 of the UTF-8 bytes of a text, as
      lowercase hex. It is opaque here, so it is a parameter; being a
      mathematical function, it is deterministic. */
  type Hasher = string -> string

  /** An instance of `LoginMessage`. `user_id`, `device_type` and `locale`
      are taken from the message without any type check, so they stay JSON
      values. */
  datatype LoginRecord = LoginRecord(
    userId: JsonValue,
    deviceType: JsonValue,
    maskedIp: string,
    maskedDeviceId: string,
    locale: JsonValue,
    appVersion: int,
    createDate: Date)

  /** Why the constructor raised. The consumer catches every one of them
      alike; they are told apart here only to say which check failed.
      - NotAnObject: the body is not a JSON object, so indexing it by a
        key is a TypeError;
      - MissingField: a KeyError;
      - NotAString: `app_version.partition` is an AttributeError, and
        `ip + salt` or `device_id + salt` a TypeError, on a non-string;
      - MalformedVersion: `int()` of the text before the first `.` is a
        ValueError. */
  datatype Error =
    | NotAnObject
    | MissingField(key: string)
    | NotAString(key: string)
    | MalformedVersion(head: string)

  /** The keys the constructor reads, in the order it reads them. */
  const RequiredFields: seq<string> :=
    ["user_id", "device_type", "locale", "app_version", "ip", "device_id"]

  /** The keys whose values must be strings. */
  const TextFields: seq<string> := ["app_version", "ip", "device_id"]

  /** `calculateHash(value, salt)`: the digest of the value with the salt
      appended. */
  function CalculateHash(value: string, salt: string, hash: Hasher): string {
    hash(value + salt)
  }

  /** The major version: `int()` of the text before the first `.` of the
      dotted version string, or of the whole string when it has no `.`. */
  function MajorVersion(version: string): (r: Result<int, Error>)
    ensures r.Failure? ==>
      && r.error.MalformedVersion?
      && '.' !in r.error.head
      && r.error.head <= version
      && (|r.error.head| < |version| ==> version[|r.error.head|] == '.')
  {
    var head := Partition(version, '.').head;
    match ParseInt(head)
    case Some(major) => Success(major)
    case None => Failure(MalformedVersion(head))
  }

  /** Why `m[key]` is unusable as a string: a KeyError when absent, a
      type error otherwise. */
  function TextError(m: map<string, JsonValue>, key: string): (e: Error)
    requires !HasText(m, key)
    ensures key in TextFields ==> Explains(JObject(m), e)
  {
    if key !in m then MissingField(key) else NotAString(key)
  }

  predicate HasText(m: map<string, JsonValue>, key: string) {
    key in m && m[key].JString?
  }

  /** A body the constructor accepts. */
  predicate IsLoginMessage(body: JsonValue) {
    && body.JObject?
    && var m := body.fields;
    && "user_id" in m && "device_type" in m && "locale" in m
    && HasText(m, "app_version") && HasText(m, "ip") && HasText(m, "device_id")
    && ParseInt(Partition(m["app_version"].str, '.').head).Some?
  }

  /** The reported error is a genuine defect of the body. */
  predicate Explains(body: JsonValue, e: Error) {
    match e
    case NotAnObject => !body.JObject?
    case MissingField(k) =>
      body.JObject? && k in RequiredFields && k !in body.fields
    case NotAString(k) =>
      body.JObject? && k in TextFields && k in body.fields && !body.fields[k].JString?
    case MalformedVersion(h) =>
      && body.JObject?
      && "app_version" in body.fields
      && body.fields["app_version"].JString?
      && h == Partition(body.fields["app_version"].str, '.').head
      && ParseInt(h).None?
  }

  /** What the constructor reads from a body, before any masking. */
  datatype LoginFields = LoginFields(
    userId: JsonValue, deviceType: JsonValue, locale: JsonValue,
    appVersion: int, ip: string, deviceId: string)

  /** The reads and checks of `LoginMessage.__init__`, in the order the
      constructor performs them. It succeeds exactly on login messages and
      then hands back the raw values; a failure names a defect the body
      really has. */
  function ReadFields(body: JsonValue): (r: Result<LoginFields, Error>)
    ensures r.Success? <==> IsLoginMessage(body)
    ensures r.Success? ==>
      var m := body.fields;
      && r.value.userId == m["user_id"]
      && r.value.deviceType == m["device_type"]
      && r.value.locale == m["locale"]
      && r.value.ip == m["ip"].str
      && r.value.deviceId == m["device_id"].str
      && ParseInt(Partition(m["app_version"].str, '.').head) == Some(r.value.appVersion)
    ensures r.Failure? ==> Explains(body, r.error)
  {
    if !body.JObject? then Failure(NotAnObject)
    else
      var m := body.fields;
      if "user_id" !in m then Failure(MissingField("user_id"))
      else if "device_type" !in m then Failure(MissingField("device_type"))
      else if "locale" !in m then Failure(MissingField("locale"))
      else if !HasText(m, "app_version") then Failure(TextError(m, "app_version"))
      else
        var version := MajorVersion(m["app_version"].str);
        if version.Failure? then Failure(version.error)
        else if !HasText(m, "ip") then Failure(TextError(m, "ip"))
        else if !HasText(m, "device_id") then Failure(TextError(m, "device_id"))
        else Success(LoginFields(
          m["user_id"], m["device_type"], m["locale"], version.value,
          m["ip"].str, m["device_id"].str))
  }

  /** `LoginMessage(json_message, secret_salt)`, with the clock reading
      passed in as `today`. It fails exactly when `ReadFields` does, with the
      same error; otherwise the pass-through fields and the version are
      those `ReadFields` read, and each masked field is the digest of the raw
      value followed by the salt. */
  function Normalize(body: JsonValue, salt: string, today: Date, hash: Hasher)
    : (r: Result<LoginRecord, Error>)
    ensures r.Failure? <==> ReadFields(body).Failure?
    ensures r.Failure? ==> r.error == ReadFields(body).error
    ensures r.Success? ==>
      var f := ReadFields(body).value;
      && r.value.userId == f.userId
      && r.value.deviceType == f.deviceType
      && r.value.locale == f.locale
      && r.value.maskedIp == hash(f.ip + salt)
      && r.value.maskedDeviceId == hash(f.deviceId + salt)
      && r.value.appVersion == f.appVersion
      && r.value.createDate == today
  {
    match ReadFields(body)
    case Failure(e) => Failure(e)
    case Success(f) => Success(LoginRecord(
      f.userId, f.deviceType,
      CalculateHash(f.ip, salt, hash),
      CalculateHash(f.deviceId, salt, hash),
      f.locale, f.appVersion, today))
  }

  /** One value of a database row. */
  datatype Cell = JsonCell(json: JsonValue) | Text(text: string) | Int(n: int) | Day(date: Date)

  /** The column list of the INSERT statement into `user_logins`. */
  const Columns: seq<string> :=
    ["user_id", "device_type", "masked_ip", "masked_device_id", "locale", "app_version", "create_date"]

  /** The attribute of a record that belongs in the named column. */
  function Column(rec: LoginRecord, name: string): Option<Cell> {
    if name == "user_id" then Some(JsonCell(rec.userId))
    else if name == "device_type" then Some(JsonCell(rec.deviceType))
    else if name == "masked_ip" then Some(Text(rec.maskedIp))
    else if name == "masked_device_id" then Some(Text(rec.maskedDeviceId))
    else if name == "locale" then Some(JsonCell(rec.locale))
    else if name == "app_version" then Some(Int(rec.appVersion))
    else if name == "create_date" then Some(Day(rec.createDate))
    else None
  }

  /** Reads a record back from a row laid out in `Columns` order. */
  function FromTuple(row: seq<Cell>): Option<LoginRecord> {
    if && |row| == 7
       && row[0].JsonCell? && row[1].JsonCell? && row[2].Text? && row[3].Text?
       && row[4].JsonCell? && row[5].Int? && row[6].Day?
    then Some(LoginRecord(
      row[0].json, row[1].json, row[2].text, row[3].text,
      row[4].json, row[5].n, row[6].date))
    else None
  }

  /** `getTuple()`: position i of the tuple holds the attribute for the
      i-th column of the INSERT statement, and no information is lost. */
  function GetTuple(rec: LoginRecord): (row: seq<Cell>)
    ensures |row| == |Columns|
    ensures forall i :: 0 <= i < |row| ==> Column(rec, Columns[i]) == Some(row[i])
    ensures FromTuple(row) == Some(rec)
  {
    [JsonCell(rec.userId), JsonCell(rec.deviceType), Text(rec.maskedIp), Text(rec.maskedDeviceId),
     JsonCell(rec.locale), Int(rec.appVersion), Day(rec.createDate)]
  }

  /** Two different values reach the digest as two different inputs under
      the same salt, so two values that mask alike are either equal or a
      collision of the digest itself. No assumption on the digest. */
  lemma SaltedValuesDiffer(a: string, b: string, salt: string, hash: Hasher)
    ensures a + salt == b + salt <==> a == b
    ensures CalculateHash(a, salt, hash) == CalculateHash(b, salt, hash) && a != b ==>
      a + salt != b + salt && hash(a + salt) == hash(b + salt)
  {
    if a + salt == b + salt {
      assert |a| == |b|;
      assert a == (a + salt)[..|a|];
      assert b == (b + salt)[..|b|];
    }
  }

  /** The same value under two different salts reaches the digest as two
      different inputs, so equal masks under different salts are a
      collision of the digest itself. No assumption on the digest. */
  lemma SaltsDiffer(value: string, salt1: string, salt2: string, hash: Hasher)
    ensures value + salt1 == value + salt2 <==> salt1 == salt2
    ensures CalculateHash(value, salt1, hash) == CalculateHash(value, salt2, hash) && salt1 != salt2 ==>
      value + salt1 != value + salt2 && hash(value + salt1) == hash(value + salt2)
  {
    if value + salt1 == value + salt2 {
      assert salt1 == (value + salt1)[|value|..];
      assert salt2 == (value + salt2)[|value|..];
    }
  }

  /** An idealised digest that never collides. No function from all texts
      to fixed-length digests is one, so the two lemmas below that assume
      it are corollaries of the two above, not facts about SHA-256. */
  ghost predicate Injective(hash: Hasher) {
    forall x, y :: hash(x) == hash(y) ==> x == y
  }

  /** With a collision-free digest and a fixed salt, two values mask alike
      exactly when they are equal. */
  lemma MaskIsInjective(a: string, b: string, salt: string, hash: Hasher)
    requires Injective(hash)
    ensures CalculateHash(a, salt, hash) == CalculateHash(b, salt, hash) <==> a == b
  {
    SaltedValuesDiffer(a, b, salt, hash);
  }

  /** With a collision-free digest, changing the salt changes every mask. */
  lemma MaskDependsOnSalt(value: string, salt1: string, salt2: string, hash: Hasher)
    requires Injective(hash)
    requires salt1 != salt2
    ensures CalculateHash(value, salt1, hash) != CalculateHash(value, salt2, hash)
  {
    SaltsDiffer(value, salt1, salt2, hash);
  }

  /** Only the text before the first `.` matters: whatever follows it,
      minor and patch numbers included, never changes the outcome. */
  lemma VersionIgnoresMinor(head: string, rest: string)
    requires '.' !in head
    ensures MajorVersion(head + "." + rest) == MajorVersion(head)
  {
    PartitionAtFirst(head, '.', rest);
    assert Partition(head, '.').head == head;
  }

  /** A version written `<n>.<anything>` has major version n. */
  lemma MajorVersionDotted(n: int, rest: string)
    ensures MajorVersion(Show(n) + "." + rest) == Success(n)
  {
    ParseShowPlain(n);
    PartitionAtFirst(Show(n), '.', rest);
    assert Partition(Show(n) + "." + rest, '.').head == Show(n);
  }

  /** A version without a dot is parsed whole. */
  lemma MajorVersionUndotted(n: int)
    ensures MajorVersion(Show(n)) == Success(n)
  {
    ParseShowPlain(n);
    assert Partition(Show(n), '.').head == Show(n);
  }

  /** A well-formed login event with the given version string. */
  function SampleEvent(version: string): map<string, JsonValue> {
    map[
      "user_id" := JString("424cdd21-063a-43a7-b91b-7ca1a833afae"),
      "device_type" := JString("android"),
      "locale" := JString("RU"),
      "app_version" := JString(version),
      "ip" := JString("199.172.111.135"),
      "device_id" := JString("593-47-5928")]
  }

  /** "3.2.1" has major version 3. */
  lemma SampleVersion()
    ensures MajorVersion("3.2.1") == Success(3)
  {
    assert Show(3) == "3";
    assert "3.2.1" == Show(3) + "." + "2.1";
    MajorVersionDotted(3, "2.1");
  }

  /** A version that starts with the separator U+001C is malformed, even
      though `str.isspace()` would call that character whitespace. */
  lemma SeparatorVersionRejected()
    ensures MajorVersion("\U{001C}3.0") == Failure(MalformedVersion("\U{001C}3"))
  {
    assert "\U{001C}3.0" == "\U{001C}3" + "." + "0";
    PartitionAtFirst("\U{001C}3", '.', "0");
    assert "\U{001C}3" == ['\U{001C}'] + "3";
    LeadingSeparatorRejected('\U{001C}', "3");
  }

  /** The three pass-through keys are present. */
  predicate HasPassThrough(m: map<string, JsonValue>) {
    "user_id" in m && "device_type" in m && "locale" in m
  }

  /** An event with every field in place and version `<n>.<rest>` is
      accepted, with app_version n. */
  lemma DottedVersionAccepted(m: map<string, JsonValue>, n: int, rest: string)
    requires HasPassThrough(m) && HasText(m, "ip") && HasText(m, "device_id")
    requires "app_version" in m && m["app_version"] == JString(Show(n) + "." + rest)
    ensures ReadFields(JObject(m)).Success?
    ensures ReadFields(JObject(m)).value.appVersion == n
  {
    MajorVersionDotted(n, rest);
    var version := Show(n) + "." + rest;
    assert ParseInt(Partition(version, '.').head) == Some(n);
    assert IsLoginMessage(JObject(m));
    var r := ReadFields(JObject(m));
    assert r.Success?;
    assert ParseInt(Partition(version, '.').head) == Some(r.value.appVersion);
  }

  /** A version text without any digit, "abc" say, is rejected as a
      malformed version naming the text before its first `.`, provided the
      three pass-through keys are there. */
  lemma DigitlessVersionRejected(m: map<string, JsonValue>, version: string)
    requires HasPassThrough(m)
    requires "app_version" in m && m["app_version"] == JString(version)
    requires forall i :: 0 <= i < |version| ==> !IsDigit(version[i])
    ensures ReadFields(JObject(m)) == Failure(MalformedVersion(Partition(version, '.').head))
  {
    var head := Partition(version, '.').head;
    assert head <= version;
    ParseNeedsDigit(head);
    assert MajorVersion(version) == Failure(MalformedVersion(head));
    assert !IsLoginMessage(JObject(m));
  }

  /** A missing `device_id` is reported as such once every earlier read
      has succeeded: the checks run in the constructor's order. */
  lemma MissingDeviceIdRejected(m: map<string, JsonValue>)
    requires HasPassThrough(m) && HasText(m, "app_version") && HasText(m, "ip")
    requires ParseInt(Partition(m["app_version"].str, '.').head).Some?
    requires "device_id" !in m
    ensures ReadFields(JObject(m)) == Failure(MissingField("device_id"))
  {
  }

  /** The sample event with version "3.2.1" is accepted with version 3. */
  lemma SampleEventAccepted()
    ensures ReadFields(JObject(SampleEvent("3.2.1"))).Success?
    ensures ReadFields(JObject(SampleEvent("3.2.1"))).value.appVersion == 3
  {
    var m := SampleEvent("3.2.1");
    assert "3.2.1" == Show(3) + "." + "2.1";
    assert HasText(m, "ip") && HasText(m, "device_id");
    DottedVersionAccepted(m, 3, "2.1");
  }

  /** With version "abc" the same event is rejected, naming "abc". */
  lemma SampleEventRejected()
    ensures ReadFields(JObject(SampleEvent("abc"))) == Failure(MalformedVersion("abc"))
  {
    var m := SampleEvent("abc");
    assert m["app_version"] == JString("abc");
    DigitlessVersionRejected(m, "abc");
    assert Partition("abc", '.').head == "abc";
  }
}
