/** The OAuth callback: the query parameters other than `hmac` and
    `signature` are signed as one canonical message, and the handler checks
    the state cookie, then the HMAC, then the presence of `code`, before it
    exchanges the code for an access token. */
module OAuthCallback {
  import opened Wrappers
  import opened Text
  import opened Order
  import opened JsMap

  /** A query parameter: one value, or an array when the parameter is
      repeated. */
  datatype QueryValue = Str(s: string) | Arr(items: seq<string>)

  /** `req.query`, keys in `Object.keys` order. */
  type Query = OrderedMap<QueryValue>

  // ---------------------------------------------------------------------
  // The canonical message

  /** `const { hmac, signature, ...rest } = query` leaves these two out. */
  predicate Excluded(k: string) {
    k == "hmac" || k == "signature"
  }

  /** `Object.keys(rest)`: the keys in order, without the excluded two. */
  function RestKeys(ks: seq<string>): (r: seq<string>)
    ensures |r| <= |ks|
  {
    if ks == [] then []
    else
      var n := |ks| - 1;
      RestKeys(ks[..n]) + (if Excluded(ks[n]) then [] else [ks[n]])
  }

  function Self(k: string): string {
    k
  }

  /** `Object.keys(rest).sort()`. */
  function CanonicalKeys(q: Query): seq<string> {
    SortBy(RestKeys(q.keys), Self)
  }

  /** `${v}` for a string, `v.join(",")` for an array. */
  function Render(v: QueryValue): string {
    match v
    case Str(s) => s
    case Arr(xs) => Join(xs, ",")
  }

  /** The `k=v` pair of each key. */
  function Pairs(values: map<string, QueryValue>, ks: seq<string>): (r: seq<string>)
    requires forall k :: k in ks ==> k in values
    ensures |r| == |ks|
  {
    seq(|ks|, i requires 0 <= i < |ks| => ks[i] + "=" + Render(values[ks[i]]))
  }

  /** The message `verifyHmac` signs: the pairs of the sorted keys joined
      with `&`. */
  function Message(q: Query): string
    requires q.Valid()
  {
    var ks := CanonicalKeys(q);
    SortByMembers(RestKeys(q.keys), Self);
    RestKeysMembers(q.keys);
    Join(Pairs(q.values, ks), "&")
  }

  /** A key is kept exactly when it occurs and is not excluded. */
  lemma {:induction false} RestKeysMembers(ks: seq<string>)
    ensures forall k :: k in RestKeys(ks) <==> k in ks && !Excluded(k)
  {
    if ks != [] {
      var n := |ks| - 1;
      RestKeysMembers(ks[..n]);
      assert ks == ks[..n] + [ks[n]];
    }
  }

  /** The kept keys of distinct keys are distinct. */
  lemma {:induction false} RestKeysDistinct(ks: seq<string>)
    requires forall i, j :: 0 <= i < j < |ks| ==> ks[i] != ks[j]
    ensures DistinctKeys(RestKeys(ks), Self)
  {
    if ks != [] {
      var n := |ks| - 1;
      assert forall i, j :: 0 <= i < j < n ==> ks[..n][i] != ks[..n][j];
      RestKeysDistinct(ks[..n]);
      RestKeysMembers(ks[..n]);
      assert ks[n] !in ks[..n];
    }
  }

  /** The message lists exactly the keys other than `hmac` and
      `signature`, each once, in strictly ascending order, as `k=v` pairs
      joined with `&`. */
  lemma CanonicalKeysSpec(q: Query)
    requires q.Valid()
    ensures var ks := CanonicalKeys(q);
      && (forall k :: k in ks <==> k in q.values && !Excluded(k))
      && Ascending(ks)
      && Message(q) == Join(seq(|ks|, i requires 0 <= i < |ks| => ks[i] + "=" + Render(q.values[ks[i]])), "&")
  {
    RestKeysMembers(q.keys);
    SortByMembers(RestKeys(q.keys), Self);
    RestKeysDistinct(q.keys);
    var ks := SortBy(RestKeys(q.keys), Self);
    PermutationKeepsDistinct(RestKeys(q.keys), ks, Self);
    forall i, j | 0 <= i < j < |ks| ensures Less(ks[i], ks[j]) {
      assert Le(Self(ks[i]), Self(ks[j])) && Self(ks[i]) != Self(ks[j]);
      LessTotal(ks[i], ks[j]);
    }
  }

  /** Two queries with the same parameters sign the same message, whatever
      the order of their keys. */
  lemma MessageOrderIndependent(q1: Query, q2: Query)
    requires q1.Valid() && q2.Valid() && q1.values == q2.values
    ensures Message(q1) == Message(q2)
  {
    CanonicalKeysSpec(q1);
    CanonicalKeysSpec(q2);
    AscendingUnique(CanonicalKeys(q1), CanonicalKeys(q2));
  }

  lemma RestKeysIgnoreSet(q: Query, k: string, v: QueryValue)
    requires q.Valid() && Excluded(k)
    ensures RestKeys(q.Set(k, v).keys) == RestKeys(q.keys)
  {
    var q' := q.Set(k, v);
    if k !in q.values {
      assert q'.keys == q.keys + [k];
      assert q'.keys[..|q.keys|] == q.keys;
    }
  }

  lemma PairsAgree(v1: map<string, QueryValue>, v2: map<string, QueryValue>, ks: seq<string>)
    requires forall k :: k in ks ==> k in v1 && k in v2 && v1[k] == v2[k]
    ensures Pairs(v1, ks) == Pairs(v2, ks)
  {
  }

  /** Whatever `hmac` or `signature` holds, the message is the same, so the
      signature covers only the other parameters. */
  lemma MessageIgnoresExcluded(q: Query, k: string, v: QueryValue)
    requires q.Valid() && Excluded(k)
    ensures Message(q.Set(k, v)) == Message(q)
  {
    var q' := q.Set(k, v);
    RestKeysIgnoreSet(q, k, v);
    var ks := CanonicalKeys(q);
    assert CanonicalKeys(q') == ks;
    RestKeysMembers(q.keys);
    SortByMembers(RestKeys(q.keys), Self);
    PairsAgree(q'.values, q.values, ks);
  }

  /** An array parameter renders like the single string of its elements
      joined with commas: `a=x&a=y` and `a=x,y` sign the same message. */
  lemma ArrayValueCollides(xs: seq<string>)
    ensures Render(Arr(xs)) == Render(Str(Join(xs, ",")))
    ensures Render(Arr(["x", "y"])) == "x,y"
  {
  }

  /** `verifyHmac`: the hex digest of the message under the app secret must
      equal the `hmac` parameter; `===` fails for a missing or array
      parameter. The digest (HMAC-SHA256, RFC 2104) is the parameter
      `digest`. */
  function VerifyHmac(q: Query, secret: string, digest: (string, string) -> string): bool
    requires q.Valid()
  {
    "hmac" in q.values && q.values["hmac"] == Str(digest(secret, Message(q)))
  }

  // ---------------------------------------------------------------------
  // The handler

  /** The handler's answers: status 400 with one of three messages, or the
      token exchange for `code`. */
  datatype Outcome = InvalidState | InvalidHmac | MissingCode | Exchange(code: QueryValue)

  /** `!stateCookie || stateCookie !== state`: the cookie must be present,
      non-empty and equal to the `state` parameter as a string. */
  predicate StateOk(q: Query, stateCookie: Option<string>) {
    && stateCookie.Some? && stateCookie.value != ""
    && "state" in q.values && q.values["state"] == Str(stateCookie.value)
  }

  /** `!code`: a missing or empty `code` is falsy; an array is not. */
  predicate HasCode(q: Query) {
    "code" in q.values && q.values["code"] != Str("")
  }

  function Handler(q: Query, stateCookie: Option<string>, secret: string, digest: (string, string) -> string): Outcome
    requires q.Valid()
  {
    if !StateOk(q, stateCookie) then InvalidState
    else if !VerifyHmac(q, secret, digest) then InvalidHmac
    else if !HasCode(q) then MissingCode
    else Exchange(q.values["code"])
  }

  /** The code is exchanged exactly when the state, the HMAC and the code
      all pass, and then it is the `code` parameter; a bad state is
      answered without computing any digest, and a bad HMAC before `code`
      is looked at. */
  lemma HandlerSpec(q: Query, stateCookie: Option<string>, secret: string, digest: (string, string) -> string,
                    secret': string, digest': (string, string) -> string)
    requires q.Valid()
    ensures var r := Handler(q, stateCookie, secret, digest);
      && (r.Exchange? <==> StateOk(q, stateCookie) && VerifyHmac(q, secret, digest) && HasCode(q))
      && (r.Exchange? ==> "code" in q.values && r.code == q.values["code"])
      && (!StateOk(q, stateCookie) ==> r == InvalidState && Handler(q, stateCookie, secret', digest') == InvalidState)
      && (StateOk(q, stateCookie) && !VerifyHmac(q, secret, digest) ==> r == InvalidHmac)
      && (r == MissingCode ==> VerifyHmac(q, secret, digest))
  {
  }
}
