/** The parsed JSON document handed over by the JSON collaborator, and the
    member accessors the decoder uses. The accessors succeed exactly where
    rapidjson's `HasMember` / `operator[]` / `GetString` / `GetInt` /
    `IsTrue` are defined; where rapidjson would hit an assertion (missing
    member, wrong type, not an object) they return an `AccessError`. */
module Json {
  import opened Wrappers
  import opened Decimal
  import opened Text

  datatype Json =
    | JNull
    | JBool(b: bool)
    | JNumber(n: int)
    | JString(s: string)
    | JArray(items: seq<Json>)
    | JObject(members: seq<Member>)

  datatype Member = Member(name: string, value: Json)

  /** Why a document could not be read as the expected schema. */
  datatype AccessError =
    | NotAnObject
    | MissingMember(name: string)
    | WrongType(name: string)

  /** Position of the first member called `name`, or -1 (rapidjson's
      `FindMember` returns the first match). */
  function MemberIndex(members: seq<Member>, name: string): (k: int)
    ensures -1 <= k < |members|
    ensures k >= 0 ==> members[k].name == name
    ensures forall i :: 0 <= i < |members| && (k < 0 || i < k) ==> members[i].name != name
    decreases |members|
  {
    if |members| == 0 then -1
    else if members[0].name == name then 0
    else
      var k := MemberIndex(members[1..], name);
      if k < 0 then -1 else k + 1
  }

  /** `HasMember(name)` together with `operator[](name)`. */
  function Lookup(j: Json, name: string): (r: Option<Json>)
    ensures r.Some? <==> j.JObject? && exists i :: 0 <= i < |j.members| && j.members[i].name == name
  {
    if !j.JObject? then None
    else
      var k := MemberIndex(j.members, name);
      if k < 0 then None else Some(j.members[k].value)
  }

  predicate HasMember(j: Json, name: string) { Lookup(j, name).Some? }

  /** The `std::string` built from a `const char*`: the text up to, not
      including, the first NUL character. */
  function CString(s: string): (r: string)
    ensures IsPrefix(r, s) && NoChar(r, '\0')
    ensures |r| < |s| ==> s[|r|] == '\0'
    decreases |s|
  {
    if |s| == 0 || s[0] == '\0' then "" else [s[0]] + CString(s[1..])
  }

  /** A string without NUL survives the copy whole. */
  lemma CStringNoNul(s: string)
    requires NoChar(s, '\0')
    ensures CString(s) == s
  {
  }

  /** `j[name].GetString()` copied into a `std::string`: rapidjson keeps
      the whole string, the copy stops at its first NUL. */
  function GetString(j: Json, name: string): (r: Result<string, AccessError>)
    ensures r.Success? <==> Lookup(j, name).Some? && Lookup(j, name).value.JString?
    ensures r.Success? ==> r.value == CString(Lookup(j, name).value.s)
  {
    if !j.JObject? then Failure(NotAnObject)
    else match Lookup(j, name)
      case None => Failure(MissingMember(name))
      case Some(JString(s)) => Success(CString(s))
      case Some(_) => Failure(WrongType(name))
  }

  /** `j[name].GetInt()`: defined only for an integer that fits in 32 bits. */
  function GetInt(j: Json, name: string): (r: Result<int32, AccessError>)
    ensures r.Success? <==> Lookup(j, name).Some? && Lookup(j, name).value.JNumber?
                            && IsInt32(Lookup(j, name).value.n)
    ensures r.Success? ==> Lookup(j, name) == Some(JNumber(r.value))
  {
    if !j.JObject? then Failure(NotAnObject)
    else match Lookup(j, name)
      case None => Failure(MissingMember(name))
      case Some(JNumber(n)) => if IsInt32(n) then Success(n) else Failure(WrongType(name))
      case Some(_) => Failure(WrongType(name))
  }

  /** A member that may be absent: `dflt` when missing, else `GetString`. */
  function OptString(j: Json, name: string, dflt: string): (r: Result<string, AccessError>)
    requires j.JObject?
    ensures Lookup(j, name).None? ==> r == Success(dflt)
    ensures Lookup(j, name).Some? ==> r == GetString(j, name)
  {
    if HasMember(j, name) then GetString(j, name) else Success(dflt)
  }

  /** A member that may be absent: `dflt` when missing, else `GetInt`. */
  function OptInt(j: Json, name: string, dflt: int32): (r: Result<int32, AccessError>)
    requires j.JObject?
    ensures Lookup(j, name).None? ==> r == Success(dflt)
    ensures Lookup(j, name).Some? ==> r == GetInt(j, name)
  {
    if HasMember(j, name) then GetInt(j, name) else Success(dflt)
  }

  /** Looking up a name in a member list that has it first. */
  lemma LookupFirst(m: Member, rest: seq<Member>)
    ensures Lookup(JObject([m] + rest), m.name) == Some(m.value)
  {
  }

  /** Looking up a name past a member called something else. */
  lemma LookupSkip(m: Member, rest: seq<Member>, name: string)
    requires m.name != name
    ensures Lookup(JObject([m] + rest), name) == Lookup(JObject(rest), name)
  {
    assert ([m] + rest)[1..] == rest;
  }
}
