/**
 * Decoded JSON replies and the three Python operations the client applies to
 * them: `key in x`, `x[key]` and `x.get(key, default)`. Python raises on the
 * wrong shape of value; here the exception is the `Err` side of a `Result`.
 */
module JsonValue {
  import Text

  /** A decoded JSON document. Numbers are integers (see README, "Left out"). */
  datatype Json =
    | JNull
    | JBool(b: bool)
    | JInt(i: int)
    | JStr(s: string)
    | JArr(items: seq<Json>)
    | JObj(fields: map<string, Json>)

  /** The exceptions the core raises or lets through. */
  datatype Exc =
    | RetriesExhausted(retry: int)   // the final `raise` of the transport
    | JsonDecodeError                // `response.json()` on a body that is not JSON
    | KeyError(key: string)          // `d[key]` on a dict without `key`
    | TypeError                      // `in` or `[]` on a value that does not support it
    | AttributeError                 // `.get` on a value that is not a dict

  datatype Result<T> = Ok(value: T) | Err(exc: Exc)

  datatype Option<T> = None | Some(value: T)

  /** `needle` occurs as a contiguous piece of `hay` (Python's `needle in hay` on strings). */
  predicate IsSubstring(needle: string, hay: string)
    decreases |hay|
  {
    needle <= hay || (|hay| > 0 && IsSubstring(needle, hay[1..]))
  }

  /** `needle` sits in `hay` starting at position `i`. */
  predicate OccursAt(needle: string, hay: string, i: int) {
    0 <= i && i + |needle| <= |hay| && hay[i..i + |needle|] == needle
  }

  /** `IsSubstring` holds exactly when `needle` starts at some position of
      `hay`; the empty string occurs in every string. */
  lemma {:induction false} IsSubstringAt(needle: string, hay: string)
    ensures IsSubstring(needle, hay) <==> exists i :: OccursAt(needle, hay, i)
    decreases |hay|
  {
    if needle <= hay {
      assert OccursAt(needle, hay, 0);
    } else if |hay| > 0 {
      IsSubstringAt(needle, hay[1..]);
      if IsSubstring(needle, hay[1..]) {
        var i :| OccursAt(needle, hay[1..], i);
        assert hay[1..][i..i + |needle|] == hay[i + 1..i + 1 + |needle|];
        assert OccursAt(needle, hay, i + 1);
      }
      forall i | OccursAt(needle, hay, i) && i > 0
        ensures OccursAt(needle, hay[1..], i - 1)
      {
        assert hay[1..][i - 1..i - 1 + |needle|] == hay[i..i + |needle|];
      }
    }
  }

  /** Python's `key in x` for a string key: a key test on a dict, an element
      test on a list, a substring test on a string, a TypeError otherwise. */
  function Contains(x: Json, key: string): Result<bool> {
    match x
    case JObj(fields) => Ok(key in fields)
    case JArr(items) => Ok(JStr(key) in items)
    case JStr(s) => Ok(IsSubstring(key, s))
    case _ => Err(TypeError)
  }

  /** Python's `x[key]` for a string key: only a dict can be indexed by a string. */
  function Index(x: Json, key: string): (r: Result<Json>)
    ensures r.Ok? <==> x.JObj? && key in x.fields
    ensures r.Ok? ==> r.value == x.fields[key]
    ensures r.Err? ==> r.exc == (if x.JObj? then KeyError(key) else TypeError)
  {
    match x
    case JObj(fields) => if key in fields then Ok(fields[key]) else Err(KeyError(key))
    case _ => Err(TypeError)
  }

  /** Python's `x.get(key, default)`: only a dict has `.get`. */
  function Get(x: Json, key: string, default: Json): Result<Json> {
    match x
    case JObj(fields) => Ok(if key in fields then fields[key] else default)
    case _ => Err(AttributeError)
  }

  /** On a dict the three operations agree: `in` says whether `[]` succeeds,
      and `.get` returns what `[]` returns or else the default. On any other
      value `.get` raises. */
  lemma GetAgreesWithIndex(x: Json, key: string, default: Json)
    ensures Get(x, key, default).Ok? <==> x.JObj?
    ensures x.JObj? ==> Contains(x, key) == Ok(Index(x, key).Ok?)
    ensures x.JObj? ==>
      (Get(x, key, default) == Ok(if Index(x, key).Ok? then Index(x, key).value else default))
  {
  }

  /** Python's `str(x)` as an f-string renders a request field. Exact for
      strings, integers, booleans and None; a list or dict rendering is not
      modelled (see README, "Left out"). */
  function FieldText(x: Json): string {
    match x
    case JStr(s) => s
    case JInt(i) => Text.IntToString(i)
    case JBool(b) => if b then "True" else "False"
    case JNull => "None"
    case _ => ""
  }
}
