/**
 * The lookup endpoint: given the `key` query value and the process
 * environment, it answers with the parsed whitelist and the values of the
 * requested whitelisted variables. A name outside the whitelist is never
 * resolved, whatever is asked for.
 */
module EnvHandler {
  import opened Wrappers
  import opened Whitelist

  /** The environment variable that holds the comma-separated whitelist. */
  const WhitelistVar: string := "ALLOWED_RUNTIME_KEYS"

  /** The only status the endpoint answers with. */
  const StatusOk: nat := 200

  /** The `key` query value: missing, given once, or given several times. */
  datatype Query = Absent | Scalar(key: string) | Many(keys: seq<string>)

  /** A resolved value in the JSON answer: a string or null. */
  datatype Value = Null | Str(s: string)

  /** The answer: a status and the JSON body `{allowed, values}`. */
  datatype Response = Response(status: nat, allowed: seq<string>, values: map<string, Value>)

  /**
   * The names to look up. An array is taken as given (even an empty one),
   * a non-empty string is a one-name list, and a missing or empty string
   * falls back to the whole whitelist.
   */
  function SelectKeys(query: Query, allowed: seq<string>): seq<string> {
    match query
    case Many(keys) => keys
    case Scalar(key) => if key != "" then [key] else allowed
    case Absent => allowed
  }

  /** An environment variable's value, or null when it is unset. */
  function Lookup(env: map<string, string>, k: string): Value {
    match Get(env, k)
    case Some(v) => Str(v)
    case None => Null
  }

  /** The names of a list, as a set. */
  function Names(names: seq<string>): set<string> {
    set w | w in names
  }

  /**
   * The result map, built one requested name at a time: a name outside the
   * whitelist is skipped, every other one is bound to its value or null.
   */
  method BuildValues(keys: seq<string>, allowed: seq<string>, env: map<string, string>)
    returns (values: map<string, Value>)
    ensures values.Keys == Names(keys) * Names(allowed)
    ensures forall k :: k in values ==> values[k] == Lookup(env, k)
  {
    values := map[];
    for i := 0 to |keys|
      invariant values.Keys == Names(keys[..i]) * Names(allowed)
      invariant forall k :: k in values ==> values[k] == Lookup(env, k)
    {
      var k := keys[i];
      assert keys[..i + 1] == keys[..i] + [k];
      if k !in allowed {
        continue;
      }
      values := values[k := Lookup(env, k)];
    }
    assert keys[..|keys|] == keys;
  }

  /**
   * What the endpoint answers: status 200, the whitelist parsed from the
   * environment, and for every selected name that is whitelisted, and for
   * no other name, its value or null.
   */
  ghost predicate Answers(env: map<string, string>, query: Query, res: Response) {
    && res.status == StatusOk
    && res.allowed == ParseWhitelist(Get(env, WhitelistVar))
    && res.values.Keys == Names(SelectKeys(query, res.allowed)) * Names(res.allowed)
    && forall k :: k in res.values ==> res.values[k] == Lookup(env, k)
  }

  /** The request handler; it has no error path. */
  method Handler(query: Query, env: map<string, string>) returns (res: Response)
    ensures Answers(env, query, res)
  {
    var allowed := ParseWhitelist(Get(env, WhitelistVar));
    var keys := SelectKeys(query, allowed);
    var values := BuildValues(keys, allowed, env);
    res := Response(StatusOk, allowed, values);
  }

  // ---------------------------------------------------------------------
  // Properties of the answer
  // ---------------------------------------------------------------------

  /** The status is always 200 and every disclosed name is clean. */
  lemma AnswerIsOk(env: map<string, string>, query: Query, res: Response)
    requires Answers(env, query, res)
    ensures res.status == 200
    ensures forall i :: 0 <= i < |res.allowed| ==> Clean(res.allowed[i])
  {
  }

  /** Nothing outside the whitelist is ever returned, whatever is asked for. */
  lemma OnlyWhitelistedAnswered(env: map<string, string>, query: Query, res: Response)
    requires Answers(env, query, res)
    ensures forall k :: k in res.values ==> k in res.allowed
  {
  }

  /** An unset or empty whitelist gives no names and no values. */
  lemma EmptyWhitelistAnswersNothing(env: map<string, string>, query: Query, res: Response)
    requires WhitelistVar !in env || env[WhitelistVar] == []
    requires Answers(env, query, res)
    ensures res.allowed == [] && res.values == map[]
  {
  }

  /** Without a usable key, every whitelisted name is answered. */
  lemma DefaultAnswersWhitelist(env: map<string, string>, query: Query, res: Response)
    requires query.Absent? || query == Scalar([])
    requires Answers(env, query, res)
    ensures res.values.Keys == Names(res.allowed)
  {
  }

  /** With explicit keys, exactly the whitelisted ones among them are answered. */
  lemma ExplicitAnswersIntersection(env: map<string, string>, query: Query, res: Response)
    requires query.Many? || (query.Scalar? && query.key != [])
    requires Answers(env, query, res)
    ensures query.Many? ==> res.values.Keys == Names(query.keys) * Names(res.allowed)
    ensures query.Scalar? ==> res.values.Keys == if query.key in res.allowed then {query.key} else {}
  {
  }

  /**
   * A set variable is answered with its string, an empty string included,
   * and an unset one with null.
   */
  lemma ValuesAreLookups(env: map<string, string>, query: Query, res: Response, k: string)
    requires Answers(env, query, res)
    requires k in res.values
    ensures res.values[k] == Null <==> k !in env
    ensures k in env ==> res.values[k] == Str(env[k])
  {
  }

  /** The answer is a function of the request and the environment (idempotence). */
  lemma AnswerIsUnique(env: map<string, string>, query: Query, r1: Response, r2: Response)
    requires Answers(env, query, r1) && Answers(env, query, r2)
    ensures r1 == r2
  {
  }

  /** The disclosed whitelist does not depend on what was asked for. */
  lemma AllowedIgnoresQuery(env: map<string, string>, q1: Query, q2: Query, r1: Response, r2: Response)
    requires Answers(env, q1, r1) && Answers(env, q2, r2)
    ensures r1.allowed == r2.allowed
  {
  }

  /**
   * Asking for the whole whitelist explicitly gives the same answer as
   * asking for nothing.
   */
  lemma ExplicitWhitelistIsDefault(env: map<string, string>, res: Response)
    ensures Answers(env, Many(ParseWhitelist(Get(env, WhitelistVar))), res) <==> Answers(env, Absent, res)
  {
  }

  /** Repeating requested names changes nothing: they overwrite one another. */
  lemma RepeatedKeysCollapse(env: map<string, string>, keys: seq<string>, res: Response)
    ensures Answers(env, Many(keys + keys), res) <==> Answers(env, Many(keys), res)
  {
    assert Names(keys + keys) == Names(keys);
  }

  /**
   * With the whitelist "a,b" and only `a` set to `v`, asking for a, b and a
   * third name c gives {a: v, b: null}: c is left out rather than null.
   */
  lemma ExampleAnswer(env: map<string, string>, a: string, b: string, c: string, v: string, res: Response)
    requires Clean(a) && Clean(b) && a != b && c != a && c != b
    requires WhitelistVar in env && env[WhitelistVar] == a + [Comma] + b
    requires a in env && env[a] == v && b !in env
    requires Answers(env, Many([a, b, c]), res)
    ensures res.allowed == [a, b]
    ensures res.values == map[a := Str(v), b := Null]
  {
    ParsePair(a, b);
  }
}
