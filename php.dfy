/**
 * The parts of PHP's value semantics that the modelled server code relies on:
 * truthiness of strings, `trim`, `explode`, `str_replace`, `strpos`,
 * `ctype_digit` with `(int)` casts, and PHP arrays (ordered maps whose
 * assignment to an existing key keeps that key's position).
 */
module Php {

  datatype Option<+T> = None | Some(value: T)

  /** The exception classes that the modelled code throws. */
  datatype Error =
    | BadRequest
    | Forbidden
    | Conflict
    | NotFound
    | PreconditionFailed(header: string)
    | UnsupportedMediaType
    | NotImplemented
    | MethodNotAllowed
    | InvalidResourceType
    | RequestedRangeNotSatisfiable
    | InvalidArgument
    | CannotSerialize
    | CannotDeserialize

  datatype Result<+T> = Ok(value: T) | Err(error: Error)

  /** PHP's largest integer on a 64-bit build. */
  const PHP_INT_MAX: int := 0x7FFF_FFFF_FFFF_FFFF

  // ---------------------------------------------------------------- truthiness

  /** A string is falsy in PHP when it is empty or exactly "0". */
  predicate Truthy(s: string) {
    s != "" && s != "0"
  }

  /** A header value is truthy when it is present and a truthy string. */
  predicate OptTruthy(h: Option<string>) {
    h.Some? && Truthy(h.value)
  }

  /** An integer is truthy in PHP when it is not 0. */
  predicate IntTruthy(o: Option<int>) {
    o.Some? && o.value != 0
  }

  // ------------------------------------------------------------------- strings

  predicate StartsWith(s: string, prefix: string) {
    |prefix| <= |s| && s[..|prefix|] == prefix
  }

  predicate EndsWith(s: string, suffix: string) {
    |suffix| <= |s| && s[|s| - |suffix|..] == suffix
  }

  predicate OccursAt(s: string, pat: string, i: nat) {
    i + |pat| <= |s| && s[i..i + |pat|] == pat
  }

  /** `strpos($s, $pat)`: the first position where `pat` occurs. */
  function IndexOf(s: string, pat: string): (r: Option<nat>)
    ensures r.Some? ==> OccursAt(s, pat, r.value)
    ensures r.Some? ==> forall j :: 0 <= j < r.value ==> !OccursAt(s, pat, j)
    ensures r.None? ==> forall j :: 0 <= j <= |s| ==> !OccursAt(s, pat, j)
    decreases |s|
  {
    if |s| < |pat| then
      None
    else if s[..|pat|] == pat then
      Some(0)
    else
      OccursShift(s, pat);
      match IndexOf(s[1..], pat)
      case None => None
      case Some(k) => Some(k + 1)
  }

  lemma OccursShift(s: string, pat: string)
    requires |s| > 0
    ensures forall j :: 0 <= j < |s| ==> (OccursAt(s, pat, j + 1) <==> OccursAt(s[1..], pat, j))
    ensures forall j :: 1 <= j <= |s| ==> (OccursAt(s, pat, j) <==> OccursAt(s[1..], pat, j - 1))
  {
    forall j | 0 <= j < |s| ensures OccursAt(s, pat, j + 1) <==> OccursAt(s[1..], pat, j) {
      if j + 1 + |pat| <= |s| {
        assert s[1..][j..j + |pat|] == s[j + 1..j + 1 + |pat|];
      }
    }
  }

  /** The characters PHP's `trim` removes when no list is given. */
  const DefaultTrimChars: set<char> := {' ', '\t', '\n', '\r', '\0', '\U{000B}'}

  function TrimLeft(s: string, cs: set<char>): (r: string)
    ensures |r| <= |s| && r == s[|s| - |r|..]
    ensures r == [] || r[0] !in cs
    ensures forall i :: 0 <= i < |s| - |r| ==> s[i] in cs
    decreases |s|
  {
    if s != [] && s[0] in cs then TrimLeft(s[1..], cs) else s
  }

  function TrimRight(s: string, cs: set<char>): (r: string)
    ensures |r| <= |s| && r == s[..|r|]
    ensures r == [] || r[|r| - 1] !in cs
    ensures forall i :: |r| <= i < |s| ==> s[i] in cs
    decreases |s|
  {
    if s != [] && s[|s| - 1] in cs then TrimRight(s[..|s| - 1], cs) else s
  }

  /** `trim($s, $chars)`. */
  function Trim(s: string, cs: set<char>): string {
    TrimRight(TrimLeft(s, cs), cs)
  }

  /** `explode($sep, $s)` for a one-character separator. */
  function Explode(s: string, sep: char): (r: seq<string>)
    ensures |r| >= 1
    ensures forall i :: 0 <= i < |r| ==> sep !in r[i]
    decreases |s|
  {
    if |s| == 0 then
      [""]
    else
      var rest := Explode(s[1..], sep);
      if s[0] == sep then [""] + rest else [[s[0]] + rest[0]] + rest[1..]
  }

  /** `implode($sep, $parts)`: the inverse of Explode. */
  function Implode(parts: seq<string>, sep: char): string
    requires |parts| >= 1
    decreases |parts|
  {
    if |parts| == 1 then parts[0] else parts[0] + [sep] + Implode(parts[1..], sep)
  }

  lemma {:induction false} ImplodeExplode(s: string, sep: char)
    ensures Implode(Explode(s, sep), sep) == s
    decreases |s|
  {
    if |s| > 0 {
      var rest := Explode(s[1..], sep);
      ImplodeExplode(s[1..], sep);
      if s[0] == sep {
        assert Explode(s, sep) == [""] + rest;
        assert Implode([""] + rest, sep) == "" + [sep] + Implode(rest, sep);
      } else {
        var r := Explode(s, sep);
        assert r == [[s[0]] + rest[0]] + rest[1..];
        if |rest| == 1 {
          assert Implode(r, sep) == [s[0]] + rest[0];
        } else {
          assert r[1..] == rest[1..];
          assert Implode(r, sep) == [s[0]] + rest[0] + [sep] + Implode(rest[1..], sep);
          assert Implode(rest, sep) == rest[0] + [sep] + Implode(rest[1..], sep);
        }
      }
    }
  }

  /**
   * The second piece of `explode($sep, $s, 3)`, which is what
   * `list(, $x, ) = explode(' ', $s, 3)` assigns to `$x`; None when the string
   * has no separator (PHP then assigns null).
   */
  function SecondPiece(s: string, sep: char): Option<string> {
    var parts := Explode(s, sep);
    if |parts| >= 2 then Some(parts[1]) else None
  }

  lemma {:induction false} SecondPieceOf(a: string, b: string, rest: string, sep: char)
    requires sep !in a && sep !in b
    ensures SecondPiece(a + [sep] + b + [sep] + rest, sep) == Some(b)
    ensures SecondPiece(a + [sep] + b, sep) == Some(b)
  {
    ExplodeJoin(a, b + [sep] + rest, sep);
    assert a + [sep] + b + [sep] + rest == a + [sep] + (b + [sep] + rest);
    ExplodeJoin(b, rest, sep);
    ExplodeJoin(a, b, sep);
    ExplodeNoSep(b, sep);
  }

  lemma {:induction false} ExplodeNoSep(s: string, sep: char)
    requires sep !in s
    ensures Explode(s, sep) == [s]
    decreases |s|
  {
    if |s| > 0 {
      ExplodeNoSep(s[1..], sep);
      assert [s[0]] + s[1..] == s;
    }
  }

  /** Exploding `a + sep + b` with no separator in `a` gives `a` then the pieces of `b`. */
  lemma {:induction false} ExplodeJoin(a: string, b: string, sep: char)
    requires sep !in a
    ensures Explode(a + [sep] + b, sep) == [a] + Explode(b, sep)
    decreases |a|
  {
    if |a| == 0 {
      assert a + [sep] + b == [sep] + b;
      assert ([sep] + b)[1..] == b;
    } else {
      ExplodeJoin(a[1..], b, sep);
      assert (a + [sep] + b)[1..] == a[1..] + [sep] + b;
      assert [a[0]] + a[1..] == a;
    }
  }

  /** `str_replace($pat, $rep, $s)`: left-to-right, non-overlapping replacement. */
  function ReplaceAll(s: string, pat: string, rep: string): (r: string)
    requires |pat| > 0
    decreases |s|
  {
    if |s| < |pat| then s
    else if s[..|pat|] == pat then rep + ReplaceAll(s[|pat|..], pat, rep)
    else [s[0]] + ReplaceAll(s[1..], pat, rep)
  }

  /** Replacing a pattern that does not occur leaves the string as it is. */
  lemma {:induction false} ReplaceAbsent(s: string, pat: string, rep: string)
    requires |pat| > 0
    requires forall j :: 0 <= j <= |s| ==> !OccursAt(s, pat, j)
    ensures ReplaceAll(s, pat, rep) == s
    decreases |s|
  {
    if |s| >= |pat| {
      assert !OccursAt(s, pat, 0);
      OccursShift(s, pat);
      ReplaceAbsent(s[1..], pat, rep);
      assert [s[0]] + s[1..] == s;
    }
  }

  /** ASCII `strtoupper`. */
  function ToUpper(s: string): (r: string)
    ensures |r| == |s|
    ensures forall i :: 0 <= i < |s| ==> (r[i] == s[i] || ('a' <= s[i] <= 'z' && r[i] as int == s[i] as int - 32))
  {
    seq(|s|, i requires 0 <= i < |s| => if 'a' <= s[i] <= 'z' then (s[i] as int - 32) as char else s[i])
  }

  // ------------------------------------------------------------ decimal digits

  predicate IsDigit(c: char) {
    '0' <= c <= '9'
  }

  /** `ctype_digit($s)` for a string argument: non-empty and all decimal digits. */
  predicate IsDigits(s: string) {
    |s| > 0 && forall i :: 0 <= i < |s| ==> IsDigit(s[i])
  }

  /** The unbounded decimal value of a digit string (empty counts as 0). */
  function DecimalValue(s: string): nat
    requires forall i :: 0 <= i < |s| ==> IsDigit(s[i])
    decreases |s|
  {
    if |s| == 0 then 0 else DecimalValue(s[..|s| - 1]) * 10 + DigitValue(s[|s| - 1])
  }

  function DigitValue(c: char): (d: nat)
    requires IsDigit(c)
    ensures d < 10
  {
    c as int - '0' as int
  }

  /** `(int)$s` for a digit string: PHP saturates at PHP_INT_MAX. */
  function IntCast(s: string): (r: int)
    requires IsDigits(s)
    ensures 0 <= r <= PHP_INT_MAX
  {
    var v := DecimalValue(s);
    if v > PHP_INT_MAX then PHP_INT_MAX else v
  }

  /** The decimal representation PHP uses when an integer becomes a string. */
  function NatToString(n: nat): (r: string)
    ensures IsDigits(r)
    decreases n
  {
    if n < 10 then [('0' as int + n) as char] else NatToString(n / 10) + [('0' as int + n % 10) as char]
  }

  lemma {:induction false} NatToStringRoundTrip(n: nat)
    ensures DecimalValue(NatToString(n)) == n
    decreases n
  {
    if n >= 10 {
      NatToStringRoundTrip(n / 10);
      var s := NatToString(n);
      assert s[..|s| - 1] == NatToString(n / 10);
    }
  }

  // ------------------------------------------------------------- PHP arrays

  /**
   * A PHP array with keys of type K: its keys in insertion order and the value
   * stored under each. Assigning to a key that is already present keeps its
   * position; assigning to a new key appends it.
   */
  datatype Assoc<K(==, !new), V> = Assoc(keys: seq<K>, vals: map<K, V>) {

    ghost predicate Valid() {
      && (forall i, j :: 0 <= i < j < |keys| ==> keys[i] != keys[j])
      && (forall k :: k in vals <==> k in keys)
    }

    /** `$a[$k] = $v`. */
    function Put(k: K, v: V): (r: Assoc<K, V>)
      ensures r.vals == vals[k := v]
      ensures k in vals ==> r.keys == keys
      ensures k !in vals ==> r.keys == keys + [k]
    {
      if k in vals then Assoc(keys, vals[k := v]) else Assoc(keys + [k], vals[k := v])
    }

    /** Assignment keeps the keys distinct and in step with the values. */
    lemma PutValid(k: K, v: V)
      requires Valid()
      ensures Put(k, v).Valid()
    {
    }

    /** A second assignment to the same key overwrites the first and leaves the key where it was. */
    lemma PutPut(k: K, v: V, w: V)
      ensures Put(k, v).Put(k, w) == Put(k, w)
    {
      assert vals[k := v][k := w] == vals[k := w];
    }

    /** `isset($a[$k]) ? $a[$k] : null`, for non-null values. */
    function Get(k: K): Option<V> {
      if k in vals then Some(vals[k]) else None
    }

    /** `unset($a[$k])`: the other keys keep their order. */
    function Remove(k: K): (r: Assoc<K, V>)
      requires Valid()
      ensures r.Valid()
      ensures r.vals == vals - {k}
      ensures forall j :: j in r.keys <==> j in keys && j != k
    {
      Assoc(Without(keys, k), vals - {k})
    }

    /** The values in key order, as `foreach` visits them. */
    function Values(): (r: seq<V>)
      requires Valid()
      ensures |r| == |keys|
      ensures forall i :: 0 <= i < |keys| ==> r[i] == vals[keys[i]]
    {
      seq(|keys|, i requires 0 <= i < |keys| && keys[i] in vals => vals[keys[i]])
    }

    /** `foreach ($a as $k => $v)`: the key/value pairs in key order. */
    function Pairs(): (r: seq<(K, V)>)
      requires Valid()
      ensures |r| == |keys|
      ensures forall i :: 0 <= i < |keys| ==> r[i] == (keys[i], vals[keys[i]])
    {
      seq(|keys|, i requires 0 <= i < |keys| && keys[i] in vals => (keys[i], vals[keys[i]]))
    }

    /** Visiting the pairs in order, the last (and only) pair for `k` carries its value. */
    lemma PairsLastValue(k: K)
      requires Valid()
      ensures LastValue(Pairs(), k) == Get(k)
    {
      LastValueDistinct(Pairs(), k);
      if k in vals {
        PairsHas(k, vals[k]);
      } else if LastValue(Pairs(), k).Some? {
        PairsHas(k, LastValue(Pairs(), k).value);
      }
    }

    /** A pair is visited iff the key holds that value. */
    lemma PairsHas(k: K, v: V)
      requires Valid()
      ensures (k, v) in Pairs() <==> k in vals && vals[k] == v
    {
      if k in vals && vals[k] == v {
        var i :| 0 <= i < |keys| && keys[i] == k;
        assert Pairs()[i] == (k, v);
      }
    }
  }

  function EmptyAssoc<K(==, !new), V>(): (r: Assoc<K, V>)
    ensures r.Valid() && r.keys == []
  {
    Assoc([], map[])
  }

  /** Assigning the pairs in order: `foreach ($pairs as [$k, $v]) $a[$k] = $v;`. */
  function PutAll<K(==, !new), V>(a: Assoc<K, V>, pairs: seq<(K, V)>): (r: Assoc<K, V>)
    requires a.Valid()
    ensures r.Valid()
    decreases |pairs|
  {
    if pairs == [] then a
    else
      a.PutValid(pairs[0].0, pairs[0].1);
      PutAll(a.Put(pairs[0].0, pairs[0].1), pairs[1..])
  }

  /** The last value assigned to `k` by `pairs`, if any. */
  function LastValue<K(==), V>(pairs: seq<(K, V)>, k: K): Option<V>
    decreases |pairs|
  {
    if pairs == [] then None
    else if pairs[|pairs| - 1].0 == k then Some(pairs[|pairs| - 1].1)
    else LastValue(pairs[..|pairs| - 1], k)
  }

  /** With distinct keys, the last assignment to `k` is its only one. */
  lemma {:induction false} LastValueDistinct<K, V>(pairs: seq<(K, V)>, k: K)
    requires forall i, j :: 0 <= i < j < |pairs| ==> pairs[i].0 != pairs[j].0
    ensures forall v :: LastValue(pairs, k) == Some(v) <==> (k, v) in pairs
    decreases |pairs|
  {
    if pairs != [] {
      var n := |pairs|;
      var init := pairs[..n - 1];
      assert pairs == init + [pairs[n - 1]];
      LastValueDistinct(init, k);
    }
  }

  /**
   * After PutAll, every key holds the value of its LAST assignment, and a key
   * that no pair assigns keeps its old value: later assignments win.
   */
  lemma {:induction false} PutAllLastWins<K(!new), V>(a: Assoc<K, V>, pairs: seq<(K, V)>, k: K)
    requires a.Valid()
    ensures PutAll(a, pairs).Get(k) == if LastValue(pairs, k).Some? then LastValue(pairs, k) else a.Get(k)
    decreases |pairs|
  {
    if pairs != [] {
      a.PutValid(pairs[0].0, pairs[0].1);
      var a' := a.Put(pairs[0].0, pairs[0].1);
      PutAllLastWins(a', pairs[1..], k);
      LastValueCons(pairs, k);
    }
  }

  lemma {:induction false} LastValueCons<K, V>(pairs: seq<(K, V)>, k: K)
    requires pairs != []
    ensures LastValue(pairs, k) ==
      if LastValue(pairs[1..], k).Some? then LastValue(pairs[1..], k)
      else if pairs[0].0 == k then Some(pairs[0].1) else None
    decreases |pairs|
  {
    if |pairs| > 1 {
      var n := |pairs|;
      assert pairs[1..][..n - 2] == pairs[..n - 1][1..];
      assert pairs[1..][n - 2] == pairs[n - 1];
      if pairs[n - 1].0 != k {
        LastValueCons(pairs[..n - 1], k);
      }
    }
  }

  /** One more assignment after PutAll is one more pair at the end. */
  lemma {:induction false} PutAllSnoc<K(!new), V>(a: Assoc<K, V>, pairs: seq<(K, V)>, k: K, v: V)
    requires a.Valid()
    ensures PutAll(a, pairs).Valid()
    ensures PutAll(a, pairs + [(k, v)]) == PutAll(a, pairs).Put(k, v)
    decreases |pairs|
  {
    if pairs != [] {
      a.PutValid(pairs[0].0, pairs[0].1);
      assert (pairs + [(k, v)])[1..] == pairs[1..] + [(k, v)];
      PutAllSnoc(a.Put(pairs[0].0, pairs[0].1), pairs[1..], k, v);
    }
  }

  /** Assigning `p` and then `q` is assigning `p + q`: `array_merge` of string-keyed arrays. */
  lemma {:induction false} PutAllAppend<K(!new), V>(a: Assoc<K, V>, p: seq<(K, V)>, q: seq<(K, V)>)
    requires a.Valid()
    ensures PutAll(a, p).Valid()
    ensures PutAll(a, p + q) == PutAll(PutAll(a, p), q)
    decreases |p|
  {
    if p != [] {
      a.PutValid(p[0].0, p[0].1);
      assert (p + q)[1..] == p[1..] + q;
      PutAllAppend(a.Put(p[0].0, p[0].1), p[1..], q);
    } else {
      assert p + q == q;
    }
  }

  /** The elements of `s` other than `k`, in order. */
  function Without<K(==, !new)>(s: seq<K>, k: K): (r: seq<K>)
    ensures forall x :: x in r <==> x in s && x != k
    ensures (forall i, j :: 0 <= i < j < |s| ==> s[i] != s[j]) ==> forall i, j :: 0 <= i < j < |r| ==> r[i] != r[j]
    decreases |s|
  {
    if s == [] then []
    else if s[|s| - 1] == k then Without(s[..|s| - 1], k)
    else
      var init := s[..|s| - 1];
      assert forall x :: x in init ==> x in s;
      assert (forall i, j :: 0 <= i < j < |s| ==> s[i] != s[j]) ==> s[|s| - 1] !in init;
      Without(init, k) + [s[|s| - 1]]
  }

  /** PutAll keeps existing keys in place and appends new keys in order of first assignment. */
  lemma {:induction false} PutAllKeys<K(!new), V>(a: Assoc<K, V>, pairs: seq<(K, V)>, k: K)
    requires a.Valid()
    ensures k in PutAll(a, pairs).keys <==> (k in a.keys || exists i :: 0 <= i < |pairs| && pairs[i].0 == k)
    decreases |pairs|
  {
    if pairs != [] {
      a.PutValid(pairs[0].0, pairs[0].1);
      var a' := a.Put(pairs[0].0, pairs[0].1);
      PutAllKeys(a', pairs[1..], k);
      if exists i :: 0 <= i < |pairs[1..]| && pairs[1..][i].0 == k {
        var i :| 0 <= i < |pairs[1..]| && pairs[1..][i].0 == k;
        assert pairs[i + 1].0 == k;
      }
      if exists i :: 0 <= i < |pairs| && pairs[i].0 == k {
        var i :| 0 <= i < |pairs| && pairs[i].0 == k;
        if i > 0 {
          assert pairs[1..][i - 1].0 == k;
        }
      }
    }
  }
  // ------------------------------------------------------------- foreach loops

  /** The accumulator a `foreach` loop over `s` leaves behind when its body is `f`. */
  function Foreach<A, B>(f: (A, B) -> A, a: A, s: seq<B>): A
    decreases |s|
  {
    if s == [] then a else f(Foreach(f, a, s[..|s| - 1]), s[|s| - 1])
  }

  /** One more iteration of the loop body. */
  lemma ForeachNext<A, B>(f: (A, B) -> A, a: A, s: seq<B>, i: nat)
    requires i < |s|
    ensures Foreach(f, a, s[..i + 1]) == f(Foreach(f, a, s[..i]), s[i])
  {
    assert s[..i + 1][..i] == s[..i];
  }

  /** Looping over `s + t` is looping over `s` and then over `t`. */
  lemma {:induction false} ForeachAppend<A, B>(f: (A, B) -> A, a: A, s: seq<B>, t: seq<B>)
    ensures Foreach(f, a, s + t) == Foreach(f, Foreach(f, a, s), t)
    decreases |t|
  {
    if t == [] {
      assert s + t == s;
    } else {
      assert (s + t)[..|s + t| - 1] == s + t[..|t| - 1];
      ForeachAppend(f, a, s, t[..|t| - 1]);
    }
  }
}
