/** `ConsulClientImpl`: the key-value requests a client issues. The URL
    encoder is a parameter; the HTTP client and the JSON mapper are left out. */
module ConsulClient {
  import opened Wrappers
  import opened JavaInt
  import opened Exceptions
  import opened TimeStrings
  import opened Transport
  import opened Paths

  const KvPath: string := "/v1/kv/"

  /** `buildUri(apiPath, extra, version)`: the encoded `extra` is appended
      after one separator, and a `cas` parameter is added for a
      non-negative version. */
  function BuildUri(apiPath: string, extra: Option<string>, version: int, encode: string -> string): (u: Uri)
    ensures extra.None? ==> u.path == apiPath
    ensures extra.Some? ==>
      var e := encode(extra.value);
      && |u.path| == |apiPath| + |e| + (if EndsWith(apiPath, '/') then 0 else 1)
      && u.path[..|apiPath|] == apiPath
      && u.path[|u.path| - |e|..] == e
      && u.path[|u.path| - |e| - 1] == '/'
    ensures version >= 0 ==> u.query == [("cas", ToDecimal(version))]
    ensures version < 0 ==> u.query == []
  {
    var path :=
      if extra.None? then apiPath
      else (if EndsWith(apiPath, '/') then apiPath else apiPath + "/") + encode(extra.value);
    Uri(path, if version >= 0 then [("cas", ToDecimal(version))] else [])
  }

  /** `request(path, version, builder)`: the key request for a node path. An
      unresolved path makes `fullPath` throw before anything is sent. */
  function KeyRequest(verb: Method, path: NodePath, version: int, body: Option<Bytes>,
                      encode: string -> string): (r: Result<HttpRequest, Exc>)
    ensures r.Success? <==> IsResolved(path)
    ensures r.Failure? ==> r.error.cls == IllegalStateClass
    ensures r.Success? ==>
      && r.value.verb == verb && r.value.body == body && r.value.token.None?
      && r.value.uri.path == KvPath + encode(FullPath(path).value)
      && (r.value.uri.query != [] <==> version >= 0)
  {
    var full :- FullPath(path);
    Success(HttpRequest(verb, BuildUri(KvPath, Some(full), version, encode), body, None))
  }

  /** `read`: a GET of the key, without a body and without `cas`. */
  function Read(path: NodePath, encode: string -> string): (r: Result<HttpRequest, Exc>)
    ensures r.Success? <==> IsResolved(path)
    ensures r.Success? ==>
      && r.value.verb == HttpGet && r.value.body.None? && r.value.uri.query == []
      && r.value.uri.path == KvPath + encode(FullPath(path).value)
  {
    KeyRequest(HttpGet, path, -1, None, encode)
  }

  /** `set(path, data)`: an unconditional PUT of the data. */
  function Set(path: NodePath, data: Bytes, encode: string -> string): (r: Result<HttpRequest, Exc>)
    ensures r.Success? <==> IsResolved(path)
    ensures r.Success? ==>
      && r.value.verb == HttpPut && r.value.body == Some(data) && r.value.uri.query == []
      && r.value.uri.path == KvPath + encode(FullPath(path).value)
  {
    KeyRequest(HttpPut, path, -1, Some(data), encode)
  }

  /** `set(path, version, data)`: a PUT of the data, made a check-and-set on
      the caller's version when that version is non-negative. */
  function SetVersioned(path: NodePath, version: int, data: Bytes, encode: string -> string): (r: Result<HttpRequest, Exc>)
    ensures r.Success? <==> IsResolved(path)
    ensures r.Success? ==>
      && r.value.verb == HttpPut && r.value.body == Some(data)
      && r.value.uri.path == KvPath + encode(FullPath(path).value)
      && (version >= 0 ==> r.value.uri.query == [("cas", ToDecimal(version))])
      && (version < 0 ==> r.value.uri.query == [])
  {
    KeyRequest(HttpPut, path, version, Some(data), encode)
  }

  /** `delete(path)`: an unconditional DELETE without a body. */
  function Delete(path: NodePath, encode: string -> string): (r: Result<HttpRequest, Exc>)
    ensures r.Success? <==> IsResolved(path)
    ensures r.Success? ==>
      && r.value.verb == HttpDelete && r.value.body.None? && r.value.uri.query == []
      && r.value.uri.path == KvPath + encode(FullPath(path).value)
  {
    KeyRequest(HttpDelete, path, -1, None, encode)
  }

  /** `delete(path, version)`: a DELETE, made a check-and-set on the caller's
      version when that version is non-negative. */
  function DeleteVersioned(path: NodePath, version: int, encode: string -> string): (r: Result<HttpRequest, Exc>)
    ensures r.Success? <==> IsResolved(path)
    ensures r.Success? ==>
      && r.value.verb == HttpDelete && r.value.body.None?
      && r.value.uri.path == KvPath + encode(FullPath(path).value)
      && (version >= 0 ==> r.value.uri.query == [("cas", ToDecimal(version))])
      && (version < 0 ==> r.value.uri.query == [])
  {
    KeyRequest(HttpDelete, path, version, None, encode)
  }

  /** The `cas` value a versioned write sends reads back as the caller's version. */
  lemma VersionedCarryCas(path: NodePath, version: int, data: Bytes, encode: string -> string)
    requires IsResolved(path) && version >= 0 && IsInt32(version)
    ensures ParseInt(SetVersioned(path, version, data, encode).value.uri.query[0].1) == Some(version)
    ensures ParseInt(DeleteVersioned(path, version, encode).value.uri.query[0].1) == Some(version)
  {
    ParseIntOfDecimal(version);
  }

  /** A negative version makes a versioned call unconditional. */
  lemma NegativeVersionIsUnconditional(path: NodePath, version: int, data: Bytes, encode: string -> string)
    requires version < 0
    ensures SetVersioned(path, version, data, encode) == Set(path, data, encode)
    ensures DeleteVersioned(path, version, encode) == Delete(path, encode)
  {
  }

  /** No second separator is added after an API path that already ends in one. */
  lemma SingleSeparator(extra: string, encode: string -> string)
    ensures BuildUri("/v1/kv/", Some(extra), -1, encode).path == "/v1/kv/" + encode(extra)
    ensures BuildUri("/v1/kv", Some(extra), -1, encode).path == "/v1/kv/" + encode(extra)
    ensures BuildUri("/v1/kv", None, 3, encode) == Uri("/v1/kv", [("cas", "3")])
  {
    assert ToDecimal(3) == "3" by {
      assert Digits(3) == [DigitChar(3)];
    }
  }
}
