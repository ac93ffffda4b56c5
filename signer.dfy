/**
 * The request signer (`encodeData`): the parameters are sorted by key,
 * concatenated as `key=value` with no separator, the fixed secret
 * `tiebaclient!!!` is appended, and the uppercase hex of the MD5 digest of that
 * string is stored under `sign` in the same dictionary.
 *
 * MD5 itself (with the UTF-8 encoding before it) is a parameter `digest`; the
 * uppercase hex rendering of its bytes is modelled.
 */
module Signer {

  /** One byte of a digest. */
  newtype byte = x: int | 0 <= x < 256

  const SignKey: string := "tiebaclient!!!"
  const SignField: string := "sign"

  /** Python's `<` on `str`: lexicographic order of code points, a proper
      prefix coming first. */
  predicate Less(a: string, b: string)
    decreases |a|
  {
    if |b| == 0 then false
    else if |a| == 0 then true
    else if a[0] != b[0] then a[0] < b[0]
    else Less(a[1..], b[1..])
  }

  lemma {:induction false} LessIrreflexive(a: string)
    ensures !Less(a, a)
  {
    if |a| > 0 {
      LessIrreflexive(a[1..]);
    }
  }

  lemma {:induction false} LessTransitive(a: string, b: string, c: string)
    requires Less(a, b) && Less(b, c)
    ensures Less(a, c)
    decreases |a|
  {
    if |a| > 0 && a[0] == b[0] && b[0] == c[0] {
      LessTransitive(a[1..], b[1..], c[1..]);
    }
  }

  /** Any two different strings are ordered one way or the other. */
  lemma {:induction false} LessConnected(a: string, b: string)
    requires a != b
    ensures Less(a, b) || Less(b, a)
    decreases |a|
  {
    if |a| > 0 && |b| > 0 && a[0] == b[0] {
      assert a == [a[0]] + a[1..] && b == [b[0]] + b[1..];
      LessConnected(a[1..], b[1..]);
    }
  }

  /** `a` and `b` agree before position `k` and `a` has the smaller code
      point at `k`. */
  predicate FirstSmallerAt(a: string, b: string, k: int) {
    0 <= k < |a| && k < |b| && a[..k] == b[..k] && a[k] < b[k]
  }

  /** `Less` is the lexicographic order: either the first differing code
      point of `a` is smaller, or `a` is a proper prefix of `b`. */
  lemma {:induction false} LessLexicographic(a: string, b: string)
    ensures Less(a, b) <==>
      (exists k :: FirstSmallerAt(a, b, k)) || (|a| < |b| && a == b[..|a|])
    decreases |a|
  {
    if |b| == 0 {
    } else if |a| == 0 {
      assert a == b[..0];
    } else if a[0] != b[0] {
      if a[0] < b[0] {
        assert FirstSmallerAt(a, b, 0);
      }
    } else {
      var a', b' := a[1..], b[1..];
      LessLexicographic(a', b');
      if exists k :: FirstSmallerAt(a', b', k) {
        var k :| FirstSmallerAt(a', b', k);
        assert a[..k + 1] == [a[0]] + a'[..k] && b[..k + 1] == [b[0]] + b'[..k];
        assert FirstSmallerAt(a, b, k + 1);
      }
      if |a'| < |b'| && a' == b'[..|a'|] {
        assert a == [a[0]] + a' && b[..|a|] == [b[0]] + b'[..|a'|];
      }
      forall k | FirstSmallerAt(a, b, k)
        ensures (exists j :: FirstSmallerAt(a', b', j))
      {
        assert k > 0;
        assert a'[..k - 1] == a[1..k] == a[..k][1..];
        assert b'[..k - 1] == b[1..k] == b[..k][1..];
        assert FirstSmallerAt(a', b', k - 1);
      }
      if |a| < |b| && a == b[..|a|] {
        assert a' == a[1..] == b[..|a|][1..] == b'[..|a'|];
      }
    }
  }

  lemma LessAsymmetric(a: string, b: string)
    ensures !(Less(a, b) && Less(b, a))
  {
    LessIrreflexive(a);
    if Less(a, b) && Less(b, a) {
      LessTransitive(a, b, a);
    }
  }

  predicate Distinct(s: seq<string>) {
    forall i, j :: 0 <= i < j < |s| ==> s[i] != s[j]
  }

  predicate StrictlySorted(s: seq<string>) {
    forall i, j :: 0 <= i < j < |s| ==> Less(s[i], s[j])
  }

  /** Puts `x` before the first element it is less than (insertion sort's step). */
  function Insert(x: string, s: seq<string>): (r: seq<string>)
    ensures |r| == |s| + 1
  {
    if s == [] || Less(x, s[0]) then [x] + s else [s[0]] + Insert(x, s[1..])
  }

  /** Python's `sorted(keys)` (insertion sort). */
  function Sort(s: seq<string>): (r: seq<string>)
    ensures |r| == |s|
  {
    if s == [] then [] else Insert(s[0], Sort(s[1..]))
  }

  /** Inserting adds exactly `x`. */
  lemma {:induction false} InsertElements(x: string, s: seq<string>)
    ensures forall y :: y in Insert(x, s) <==> y == x || y in s
  {
    if s != [] && !Less(x, s[0]) {
      InsertElements(x, s[1..]);
      assert forall y :: y in s <==> y == s[0] || y in s[1..];
    }
  }

  /** Inserting a new element into a strictly sorted sequence keeps it strictly sorted. */
  lemma {:induction false} InsertSorted(x: string, s: seq<string>)
    requires StrictlySorted(s) && x !in s
    ensures StrictlySorted(Insert(x, s))
  {
    if s == [] {
    } else if Less(x, s[0]) {
      forall j | 0 < j < |s| ensures Less(x, s[j]) { LessTransitive(x, s[0], s[j]); }
    } else {
      LessConnected(x, s[0]);
      InsertSorted(x, s[1..]);
      InsertElements(x, s[1..]);
      var t := Insert(x, s[1..]);
      forall j | 0 <= j < |t| ensures Less(s[0], t[j]) {
        assert t[j] in t;
        if t[j] != x {
          var i :| 0 <= i < |s[1..]| && s[1..][i] == t[j];
        }
      }
    }
  }

  /** Sorting keeps exactly the elements. */
  lemma {:induction false} SortElements(s: seq<string>)
    ensures forall y :: y in Sort(s) <==> y in s
  {
    if s != [] {
      SortElements(s[1..]);
      InsertElements(s[0], Sort(s[1..]));
      assert forall y :: y in s <==> y == s[0] || y in s[1..];
    }
  }

  /** Sorting distinct keys gives a strictly increasing sequence. */
  lemma {:induction false} SortSorted(s: seq<string>)
    requires Distinct(s)
    ensures StrictlySorted(Sort(s))
  {
    if s != [] {
      assert Distinct(s[1..]) && s[0] !in s[1..];
      SortSorted(s[1..]);
      SortElements(s[1..]);
      InsertSorted(s[0], Sort(s[1..]));
    }
  }

  /** A strictly sorted sequence is determined by its elements: whatever
      order the keys were inserted in, sorting them gives one sequence. */
  lemma {:induction false} SortedUnique(a: seq<string>, b: seq<string>)
    requires StrictlySorted(a) && StrictlySorted(b)
    requires forall y :: y in a <==> y in b
    ensures a == b
  {
    if a != [] {
      assert a[0] in b;
    }
    if b != [] {
      assert b[0] in a;
    }
    if a != [] {
      LessAsymmetric(a[0], b[0]);
      LessIrreflexive(a[0]);
      assert a[0] == b[0];
      assert a == [a[0]] + a[1..] && b == [b[0]] + b[1..];
      assert a[0] !in a[1..] && b[0] !in b[1..];
      forall y ensures y in a[1..] <==> y in b[1..] {
        assert y in a <==> y == a[0] || y in a[1..];
        assert y in b <==> y == b[0] || y in b[1..];
      }
      SortedUnique(a[1..], b[1..]);
    }
  }

  /** The `key=value` concatenation over `keys`, in that order. */
  function Pairs(keys: seq<string>, m: map<string, string>): string
    requires forall k :: k in keys ==> k in m
  {
    if keys == [] then ""
    else
      var k := keys[|keys| - 1];
      Pairs(keys[..|keys| - 1], m) + k + "=" + m[k]
  }

  /** The string `encodeData` hashes, before the secret is appended. */
  function Canonical(keys: seq<string>, m: map<string, string>): string
    requires forall k :: k in keys ==> k in m
  {
    SortElements(keys);
    Pairs(Sort(keys), m)
  }

  /** `hexdigest().upper()` of a digest: two uppercase hex digits per byte. */
  function HexUpper(bytes: seq<byte>): (h: string)
    ensures |h| == 2 * |bytes|
    ensures forall k :: 0 <= k < |h| ==> IsHexUpper(h[k])
  {
    if bytes == [] then ""
    else
      var b := bytes[0] as int;
      [HexDigit(b / 16), HexDigit(b % 16)] + HexUpper(bytes[1..])
  }

  predicate IsHexUpper(c: char) {
    '0' <= c <= '9' || 'A' <= c <= 'F'
  }

  /** The uppercase hex digit for `d`. */
  function HexDigit(d: nat): (c: char)
    requires d < 16
    ensures IsHexUpper(c)
  {
    if d < 10 then ('0' as int + d) as char else ('A' as int + d - 10) as char
  }

  /** The value of one uppercase hex digit. */
  function HexValue(c: char): nat
    requires IsHexUpper(c)
  {
    if '0' <= c <= '9' then c as int - '0' as int else c as int - 'A' as int + 10
  }

  lemma HexValueDigit(d: nat)
    requires d < 16
    ensures HexValue(HexDigit(d)) == d
  {
  }

  /** Reads uppercase hex back into bytes. */
  function ParseHex(h: string): seq<byte>
    requires |h| % 2 == 0
    requires forall k :: 0 <= k < |h| ==> IsHexUpper(h[k])
  {
    if h == [] then []
    else
      assert IsHexUpper(h[0]) && IsHexUpper(h[1]);
      var v := HexValue(h[0]) * 16 + HexValue(h[1]);
      [v as byte] + ParseHex(h[2..])
  }

  /** The hex rendering loses nothing: it reads back to the digest bytes. */
  lemma {:induction false} ParseHexUpper(bytes: seq<byte>)
    ensures ParseHex(HexUpper(bytes)) == bytes
  {
    if bytes != [] {
      var h := HexUpper(bytes);
      ParseHexUpper(bytes[1..]);
      assert h[2..] == HexUpper(bytes[1..]);
      var b := bytes[0] as int;
      HexValueDigit(b / 16);
      HexValueDigit(b % 16);
      assert h[0] == HexDigit(b / 16) && h[1] == HexDigit(b % 16);
    }
  }

  /** The value `encodeData` stores under `sign` for a dictionary whose keys,
      in insertion order, are `keys` and whose entries are `m`. */
  function Signature(keys: seq<string>, m: map<string, string>, digest: string -> seq<byte>): string
    requires forall k :: k in keys ==> k in m
  {
    HexUpper(digest(Canonical(keys, m) + SignKey))
  }

  /** Signer determinism: two dictionaries with the same entries get the same
      signature, whatever order their keys were inserted in. */
  lemma SignatureIgnoresOrder(k1: seq<string>, k2: seq<string>, m: map<string, string>,
                              digest: string -> seq<byte>)
    requires Distinct(k1) && Distinct(k2)
    requires forall k :: k in k1 <==> k in m
    requires forall k :: k in k2 <==> k in m
    ensures Signature(k1, m, digest) == Signature(k2, m, digest)
  {
    SortElements(k1);
    SortElements(k2);
    SortSorted(k1);
    SortSorted(k2);
    SortedUnique(Sort(k1), Sort(k2));
  }

  /** `Pairs` reads only the entries of the keys it lists. */
  lemma {:induction false} PairsAgree(keys: seq<string>, m: map<string, string>, m': map<string, string>)
    requires forall k :: k in keys ==> k in m && k in m' && m[k] == m'[k]
    ensures Pairs(keys, m) == Pairs(keys, m')
  {
    if keys != [] {
      PairsAgree(keys[..|keys| - 1], m, m');
    }
  }

  /** Two strings differing in a first part and sharing the rest differ. */
  lemma AppendDiffers(x: string, x': string, y: string)
    requires x != x'
    ensures x + y != x' + y
  {
    if |x| == |x'| {
      var i :| 0 <= i < |x| && x[i] != x'[i];
      assert (x + y)[i] == x[i] && (x' + y)[i] == x'[i];
    } else {
      assert |x + y| != |x' + y|;
    }
  }

  /** Changing the value of one listed key changes the concatenation. */
  lemma {:induction false} PairsSensitive(keys: seq<string>, m: map<string, string>, k: string, v: string)
    requires Distinct(keys) && k in keys
    requires forall j :: j in keys ==> j in m
    requires m[k] != v
    ensures Pairs(keys, m) != Pairs(keys, m[k := v])
  {
    var m' := m[k := v];
    var init := keys[..|keys| - 1];
    var last := keys[|keys| - 1];
    if last == k {
      assert forall i :: 0 <= i < |init| ==> init[i] == keys[i] && keys[i] != k;
      PairsAgree(init, m, m');
      var p := Pairs(init, m);
      assert (k + "=" + m[k])[|k| + 1..] == m[k];
      assert (k + "=" + v)[|k| + 1..] == v;
      assert Pairs(keys, m) == p + (k + "=" + m[k]);
      assert Pairs(keys, m') == p + (k + "=" + v);
      assert (p + (k + "=" + m[k]))[|p|..] == k + "=" + m[k];
      assert (p + (k + "=" + v))[|p|..] == k + "=" + v;
    } else {
      assert k in init;
      PairsSensitive(init, m, k, v);
      var tail := last + "=" + m[last];
      assert Pairs(keys, m) == Pairs(init, m) + tail;
      assert Pairs(keys, m') == Pairs(init, m') + tail;
      AppendDiffers(Pairs(init, m), Pairs(init, m'), tail);
    }
  }

  /** Signer sensitivity: changing any one field's value changes the string that
      is hashed (so the signature changes unless the digest collides). */
  lemma CanonicalSensitive(keys: seq<string>, m: map<string, string>, k: string, v: string)
    requires Distinct(keys) && k in keys
    requires forall j :: j in keys <==> j in m
    requires m[k] != v
    ensures Canonical(keys, m) + SignKey != Canonical(keys, m[k := v]) + SignKey
  {
    var sorted := Sort(keys);
    SortElements(keys);
    SortSorted(keys);
    assert Distinct(sorted) by {
      forall i, j | 0 <= i < j < |sorted| ensures sorted[i] != sorted[j] {
        if sorted[i] == sorted[j] { LessIrreflexive(sorted[i]); }
      }
    }
    PairsSensitive(sorted, m, k, v);
    AppendDiffers(Canonical(keys, m), Canonical(keys, m[k := v]), SignKey);
  }

  /** The keys other than `k`, in insertion order (the receiver drops `sign`). */
  function Without(keys: seq<string>, k: string): (r: seq<string>)
    ensures forall j :: j in r <==> j in keys && j != k
    ensures Distinct(keys) ==> Distinct(r)
  {
    assert Distinct(keys) && keys != [] ==> Distinct(keys[1..]) && keys[0] !in keys[1..];
    if keys == [] then []
    else if keys[0] == k then Without(keys[1..], k)
    else [keys[0]] + Without(keys[1..], k)
  }

  /** The signature recomputation over a signed dictionary: it carries `sign`,
      and that equals the signature of the remaining entries. */
  predicate Verifies(keys: seq<string>, m: map<string, string>, digest: string -> seq<byte>)
    requires forall k :: k in keys <==> k in m
  {
    var rest := Without(keys, SignField);
    SignField in m && m[SignField] == Signature(rest, m - {SignField}, digest)
  }

  /** A Python `dict` with string keys and values; `keys` is its insertion
      order, which is what `data.keys()` iterates over. */
  class Dict {
    var keys: seq<string>
    var values: map<string, string>

    ghost predicate Valid()
      reads this
    {
      Distinct(keys) && (forall k :: k in keys <==> k in values)
    }

    /** `{}` */
    constructor ()
      ensures Valid() && keys == [] && values == map[]
    {
      keys := [];
      values := map[];
    }

    /** `d[k] = v`: an existing key keeps its place, a new key goes last. */
    method Put(k: string, v: string)
      requires Valid()
      modifies this
      ensures Valid()
      ensures values == old(values)[k := v]
      ensures keys == if k in old(values) then old(keys) else old(keys) + [k]
    {
      if k !in values {
        keys := keys + [k];
      }
      values := values[k := v];
    }

    /** `d.update(pairs)`, also how a dict literal is built from `{}`. */
    method Update(pairs: seq<(string, string)>)
      requires Valid()
      modifies this
      ensures Valid()
      ensures values == Assigned(old(values), pairs)
      ensures keys == Inserted(old(keys), old(values), pairs)
    {
      for i := 0 to |pairs|
        invariant Valid()
        invariant values == Assigned(old(values), pairs[..i])
        invariant keys == Inserted(old(keys), old(values), pairs[..i])
      {
        assert pairs[..i + 1][..i] == pairs[..i];
        InsertedTracksAssigned(old(keys), old(values), pairs[..i]);
        Put(pairs[i].0, pairs[i].1);
      }
      assert pairs[..|pairs|] == pairs;
    }
  }

  /** The entries after assigning `pairs` one by one. */
  function Assigned(m: map<string, string>, pairs: seq<(string, string)>): map<string, string> {
    if pairs == [] then m
    else
      var p := pairs[|pairs| - 1];
      Assigned(m, pairs[..|pairs| - 1])[p.0 := p.1]
  }

  /** The insertion order after assigning `pairs` one by one: keys not yet
      present are appended, in the order of their first assignment. */
  function Inserted(keys: seq<string>, m: map<string, string>, pairs: seq<(string, string)>): seq<string> {
    if pairs == [] then keys
    else
      var p := pairs[|pairs| - 1];
      var before := Inserted(keys, m, pairs[..|pairs| - 1]);
      if p.0 in Assigned(m, pairs[..|pairs| - 1]) then before else before + [p.0]
  }

  /** Assigning keeps the insertion order a duplicate-free listing of the keys. */
  lemma {:induction false} InsertedTracksAssigned(keys: seq<string>, m: map<string, string>,
                                                  pairs: seq<(string, string)>)
    ensures Assigned(m, pairs).Keys == m.Keys + set p | p in pairs :: p.0
    ensures (forall k :: k in keys <==> k in m) ==>
              forall k :: k in Inserted(keys, m, pairs) <==> k in Assigned(m, pairs)
    ensures Distinct(keys) && (forall k :: k in keys <==> k in m) ==> Distinct(Inserted(keys, m, pairs))
  {
    if pairs != [] {
      InsertedTracksAssigned(keys, m, pairs[..|pairs| - 1]);
      assert pairs == pairs[..|pairs| - 1] + [pairs[|pairs| - 1]];
    }
  }

  /** A key that no later pair assigns again keeps the value of its pair. */
  lemma {:induction false} AssignedDistinct(pairs: seq<(string, string)>, i: nat)
    requires i < |pairs|
    requires forall b :: i < b < |pairs| ==> pairs[b].0 != pairs[i].0
    ensures pairs[i].0 in Assigned(map[], pairs)
    ensures Assigned(map[], pairs)[pairs[i].0] == pairs[i].1
  {
    if i < |pairs| - 1 {
      AssignedDistinct(pairs[..|pairs| - 1], i);
    }
  }

  /** The entries of `encodeData(d)` for a dict `d` built by assigning `pairs`
      to `{}` in order. */
  function SignedEntries(pairs: seq<(string, string)>, digest: string -> seq<byte>): map<string, string> {
    var m := Assigned(map[], pairs);
    var keys := Inserted([], map[], pairs);
    InsertedTracksAssigned([], map[], pairs);
    m[SignField := Signature(keys, m, digest)]
  }

  /** A dict built by assigning `pairs` to `{}` and then signed by
      `encodeData` holds the value of each pair whose key is not assigned again. */
  lemma SignedEntriesHold(pairs: seq<(string, string)>, digest: string -> seq<byte>, i: nat)
    requires i < |pairs| && pairs[i].0 != SignField
    requires forall b :: i < b < |pairs| ==> pairs[b].0 != pairs[i].0
    ensures pairs[i].0 in SignedEntries(pairs, digest)
    ensures SignedEntries(pairs, digest)[pairs[i].0] == pairs[i].1
  {
    AssignedDistinct(pairs, i);
  }

  /** The signature recomputation accepts the dict `encodeData` produced. */
  lemma SignedEntriesVerify(pairs: seq<(string, string)>, digest: string -> seq<byte>)
    requires forall a :: 0 <= a < |pairs| ==> pairs[a].0 != SignField
    ensures var keys := Inserted([], map[], pairs) + [SignField];
            Distinct(keys) && (forall k :: k in keys <==> k in SignedEntries(pairs, digest))
            && Verifies(keys, SignedEntries(pairs, digest), digest)
  {
    var m := Assigned(map[], pairs);
    var keys := Inserted([], map[], pairs);
    InsertedTracksAssigned([], map[], pairs);
    assert SignField !in m by {
      assert forall p | p in pairs :: p.0 != SignField;
    }
    SignedVerifies(keys, m, digest);
  }

  /** Builds `{}` updated with `pairs` and signs it with `encodeData`, as the
      list and sign requests do; the result is the signed dict's entries. */
  method SignedRequest(pairs: seq<(string, string)>, digest: string -> seq<byte>)
    returns (entries: map<string, string>)
    ensures entries == SignedEntries(pairs, digest)
  {
    var data := new Dict();
    data.Update(pairs);
    data := EncodeData(data, digest);
    entries := data.values;
  }

  /** `encodeData(data)`: signs `data` in place and returns the same object.
      Every entry keeps its value and only `sign` is added (or replaced). */
  method EncodeData(data: Dict, digest: string -> seq<byte>) returns (r: Dict)
    requires data.Valid()
    modifies data
    ensures r == data && data.Valid()
    ensures data.values == old(data.values)[SignField := Signature(old(data.keys), old(data.values), digest)]
    ensures data.keys == if SignField in old(data.values) then old(data.keys) else old(data.keys) + [SignField]
  {
    var s := "";
    var sorted := Sort(data.keys);
    SortElements(data.keys);
    for i := 0 to |sorted|
      invariant s == Pairs(sorted[..i], data.values)
    {
      assert sorted[..i + 1][..i] == sorted[..i];
      s := s + sorted[i] + "=" + data.values[sorted[i]];
    }
    assert sorted[..|sorted|] == sorted;
    var sign := HexUpper(digest(s + SignKey));
    data.Put(SignField, sign);
    r := data;
  }

  /** A dictionary signed by `encodeData` verifies, when it had no `sign`
      entry before. */
  lemma SignedVerifies(keys: seq<string>, m: map<string, string>, digest: string -> seq<byte>)
    requires Distinct(keys) && (forall k :: k in keys <==> k in m)
    requires SignField !in m
    ensures var keys' := keys + [SignField];
            var m' := m[SignField := Signature(keys, m, digest)];
            Distinct(keys') && (forall k :: k in keys' <==> k in m') && Verifies(keys', m', digest)
  {
    var keys' := keys + [SignField];
    var m' := m[SignField := Signature(keys, m, digest)];
    WithoutAbsent(keys, SignField);
    WithoutAppended(keys, SignField);
    assert m' - {SignField} == m;
  }

  lemma {:induction false} WithoutAbsent(keys: seq<string>, k: string)
    requires k !in keys
    ensures Without(keys, k) == keys
  {
    if keys != [] {
      WithoutAbsent(keys[1..], k);
    }
  }

  lemma {:induction false} WithoutAppended(keys: seq<string>, k: string)
    ensures Without(keys + [k], k) == Without(keys, k)
  {
    if keys == [] {
      assert Without([k][1..], k) == [];
    } else {
      assert (keys + [k])[1..] == keys[1..] + [k];
      WithoutAppended(keys[1..], k);
    }
  }
}
