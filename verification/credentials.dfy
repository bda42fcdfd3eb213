/** The credential resolver (`create_client_from_headers` in src/utils.rs):
    a pure function from the request's headers and the beta flag to an
    upstream client configuration or one of three errors. */
module Credentials {
  import opened Wrappers
  import opened Headers

  /** The three ways resolution fails, in the order they are checked. */
  datatype AuthError = HeaderNotFound | InvalidFormat | EmptyKey {

    /** The text of the `AppError` the source returns for this failure; its
        opening words tell the three failures apart. */
    function Message(): (m: string)
      ensures HeaderNotFound? <==> "Authorization" <= m
      ensures InvalidFormat? <==> "Неверный" <= m
      ensures EmptyKey? <==> "API" <= m
    {
      match this
      case HeaderNotFound =>
        var m := "Authorization заголовок не найден";
        assert m[1] == 'u';
        m
      case InvalidFormat =>
        var m := "Неверный формат Authorization заголовка";
        assert m[0] == 'Н';
        m
      case EmptyKey =>
        var m := "API ключ пустой";
        assert m[1] == 'P';
        m
    }
  }

  /** The parts of `OpenAIConfig` the resolver sets: the API key and the
      headers added on top of the SDK's defaults. */
  datatype Config = Config(apiKey: string, extraHeaders: seq<(string, string)>)

  const BetaHeader: (string, string) := ("OpenAI-Beta", "assistants=v2")

  /** `OpenAIConfig::new().with_api_key(key)`. */
  function NewConfig(key: string): Config {
    Config(key, [])
  }

  /** `OpenAIConfig::with_header` with a constant, well-formed name and value. */
  function WithHeader(c: Config, h: (string, string)): Config {
    c.(extraHeaders := c.extraHeaders + [h])
  }

  /** The only two scheme prefixes that are removed. */
  predicate HasScheme(s: string) {
    "Bearer " <= s || "bearer " <= s
  }

  /** Removes one leading "Bearer " or "bearer ", if present; the key is
      always the whole value or the value without its first seven characters. */
  function StripScheme(s: string): (key: string)
    ensures HasScheme(s) ==> |s| >= 7 && key == s[7..]
    ensures !HasScheme(s) ==> key == s
  {
    if "Bearer " <= s then s[7..]
    else if "bearer " <= s then s[7..]
    else s
  }

  /** Everything after the header has been found: the text check, the prefix
      strip, the emptiness check and the optional beta header. */
  function ResolveValue(v: HeaderValue, useBeta: bool): (r: Result<Config, AuthError>)
    ensures r.Success? ==> IsText(v) && r.value.apiKey == StripScheme(ToStr(v).value) != []
    ensures r.Success? ==> r.value.extraHeaders == if useBeta then [BetaHeader] else []
  {
    match ToStr(v)
    case None => Failure(InvalidFormat)
    case Some(text) =>
      var key := StripScheme(text);
      if key == [] then Failure(EmptyKey)
      else
        var config := NewConfig(key);
        Success(if useBeta then WithHeader(config, BetaHeader) else config)
  }

  /** `create_client_from_headers(headers, use_beta)`. */
  function Resolve(headers: HeaderMap, useBeta: bool): (r: Result<Config, AuthError>)
    ensures r.Success? ==> r.value.apiKey != []
    ensures r.Success? ==> r.value.extraHeaders == if useBeta then [BetaHeader] else []
  {
    var found := match Get(headers, "authorization")
                 case Some(v) => Some(v)
                 case None => Get(headers, "Authorization");
    match found
    case None => Failure(HeaderNotFound)
    case Some(v) => ResolveValue(v, useBeta)
  }

  /** A header field that the resolver reads as the credential. */
  predicate IsAuthorization(name: string) {
    SameName(name, "authorization")
  }

  // ---------------------------------------------------------------------
  // Lookup

  /** The fallback lookup of "Authorization" never finds anything the
      lookup of "authorization" missed: names are compared without case. */
  lemma FallbackIsRedundant(headers: HeaderMap)
    ensures Get(headers, "Authorization") == Get(headers, "authorization")
  {
    var upper, lower := "Authorization", "authorization";
    assert AsciiLower(upper) == lower by {
      assert forall i :: 0 <= i < |upper| ==> AsciiLower(upper)[i] == lower[i];
    }
    assert AsciiLower(lower) == lower by {
      assert forall i :: 0 <= i < |lower| ==> AsciiLower(lower)[i] == lower[i];
    }
    GetIgnoresKeyCase(headers, upper, lower);
  }

  /** The credential comes from the first field whose name is
      "authorization" in any letter case; later ones are not consulted. */
  lemma ResolveReadsFirstAuthorization(headers: HeaderMap, useBeta: bool, i: int)
    requires FirstMatch(headers, "authorization", i)
    ensures Resolve(headers, useBeta) == ResolveValue(headers[i].value, useBeta)
  {
  }

  /** Resolution fails with "header not found" exactly when no field is
      named "authorization" in any letter case. */
  lemma ResolveHeaderNotFound(headers: HeaderMap, useBeta: bool)
    ensures Resolve(headers, useBeta) == Failure(HeaderNotFound)
        <==> forall i :: 0 <= i < |headers| ==> !IsAuthorization(headers[i].name)
  {
    FallbackIsRedundant(headers);
    var r := Resolve(headers, useBeta);
    if Get(headers, "authorization").Some? {
      var v := Get(headers, "authorization").value;
      assert r == ResolveValue(v, useBeta);
    }
  }

  // ---------------------------------------------------------------------
  // The value: text check, prefix strip, emptiness

  /** A found value fails with "invalid format" exactly when it is not text;
      no other error can come from an unreadable value. */
  lemma ResolveValueInvalidFormat(v: HeaderValue, useBeta: bool)
    ensures ResolveValue(v, useBeta) == Failure(InvalidFormat) <==> !IsText(v)
    ensures !IsText(v) ==> ResolveValue(v, useBeta) != Failure(EmptyKey)
  {
  }

  /** The key is empty, and resolution fails with "key empty", exactly for
      the values "", "Bearer " and "bearer ": nothing is trimmed. */
  lemma ResolveValueEmptyKey(v: HeaderValue, useBeta: bool)
    ensures ResolveValue(v, useBeta) == Failure(EmptyKey)
        <==> ToStr(v) in {Some(""), Some("Bearer "), Some("bearer ")}
  {
    match ToStr(v)
    case None =>
    case Some(text) =>
      if StripScheme(text) == [] {
        if HasScheme(text) {
          assert text == text[..7] + text[7..];
          assert text == "Bearer " || text == "bearer ";
        }
      } else {
        assert text != "" && text != "Bearer " && text != "bearer ";
      }
  }

  /** "Bearer k" and "bearer k" both resolve to the key k. */
  lemma ResolveBearer(k: string, useBeta: bool)
    requires k != [] && IsSendable(k)
    ensures ResolveValue(Encode("Bearer " + k), useBeta).Success?
    ensures ResolveValue(Encode("Bearer " + k), useBeta).value.apiKey == k
    ensures ResolveValue(Encode("bearer " + k), useBeta).Success?
    ensures ResolveValue(Encode("bearer " + k), useBeta).value.apiKey == k
  {
    ToStrEncode("Bearer " + k);
    ToStrEncode("bearer " + k);
    assert ("Bearer " + k)[7..] == k;
    assert ("bearer " + k)[7..] == k;
  }

  /** A non-empty value with neither prefix is used verbatim as the key. */
  lemma ResolveVerbatim(s: string, useBeta: bool)
    requires s != [] && IsSendable(s) && !HasScheme(s)
    ensures ResolveValue(Encode(s), useBeta).Success?
    ensures ResolveValue(Encode(s), useBeta).value.apiKey == s
  {
    ToStrEncode(s);
  }

  /** Only the two exact casings are schemes: "BEARER k" keeps its prefix. */
  lemma UppercaseSchemeIsKept(k: string)
    ensures StripScheme("BEARER " + k) == "BEARER " + k
  {
    assert ("BEARER " + k)[0] == 'B' && ("BEARER " + k)[1] == 'E';
  }

  /** At most one prefix is removed: "Bearer bearer k" gives "bearer k". */
  lemma StripsOnlyOnce(k: string)
    ensures StripScheme("Bearer " + "bearer " + k) == "bearer " + k
  {
    var s := "Bearer " + "bearer " + k;
    assert s[..7] == "Bearer ";
    assert s[7..] == "bearer " + k;
  }

  // ---------------------------------------------------------------------
  // The beta flag

  /** The flag changes nothing but the extra headers: the same inputs fail
      with the same error, or succeed with the same key, and only the beta
      configuration carries `OpenAI-Beta: assistants=v2`. */
  lemma BetaFlagOnlyAddsHeader(headers: HeaderMap)
    ensures Resolve(headers, true).Failure? <==> Resolve(headers, false).Failure?
    ensures Resolve(headers, true).Failure? ==> Resolve(headers, true) == Resolve(headers, false)
    ensures Resolve(headers, true).Success? ==>
      && Resolve(headers, true).value.apiKey == Resolve(headers, false).value.apiKey
      && Resolve(headers, true).value.extraHeaders == [BetaHeader]
      && Resolve(headers, false).value.extraHeaders == []
  {
  }

  /** The three errors carry three different messages. */
  lemma MessagesDistinguishErrors(e1: AuthError, e2: AuthError)
    ensures e1.Message() == e2.Message() ==> e1 == e2
  {
  }
}
