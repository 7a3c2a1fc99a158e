/** Byte strings, their order and the composite keys "tenant:key" built from them.

    A Go string is a sequence of bytes and `<` on strings is the lexicographic order
    of those bytes. */
module GoStrings {

  type Byte = b: int | 0 <= b < 256

  type Str = seq<Byte>

  const COLON: Byte := 58

  datatype Option<+T> = None | Some(value: T)

  /** The order of Go's `<` on strings. */
  predicate Less(a: Str, b: Str) {
    b != [] && (a == [] || a[0] < b[0] || (a[0] == b[0] && Less(a[1..], b[1..])))
  }

  lemma {:induction false} LessIrreflexive(a: Str)
    ensures !Less(a, a)
  {
    if a != [] { LessIrreflexive(a[1..]); }
  }

  lemma {:induction false} LessTransitive(a: Str, b: Str, c: Str)
    requires Less(a, b) && Less(b, c)
    ensures Less(a, c)
  {
    if a != [] && a[0] == b[0] == c[0] {
      LessTransitive(a[1..], b[1..], c[1..]);
    }
  }

  lemma {:induction false} LessTotal(a: Str, b: Str)
    ensures Less(a, b) || a == b || Less(b, a)
  {
    if a != [] && b != [] && a[0] == b[0] {
      LessTotal(a[1..], b[1..]);
      assert a == [a[0]] + a[1..] && b == [b[0]] + b[1..];
    }
  }

  lemma LessAsymmetric(a: Str, b: Str)
    requires Less(a, b)
    ensures !Less(b, a) && a != b
  {
    LessIrreflexive(a);
    if Less(b, a) { LessTransitive(a, b, a); }
  }

  /** `a` at most `b` and `b` below `c`. */
  lemma NotLessThenLess(a: Str, b: Str, c: Str)
    requires !Less(b, a) && Less(b, c)
    ensures Less(a, c)
  {
    LessTotal(a, b);
    if a != b { LessTransitive(a, b, c); }
  }

  /** The first difference decides, and a proper prefix comes first. */
  lemma {:induction false} LessIff(a: Str, b: Str)
    ensures Less(a, b) <==>
        exists i :: 0 <= i <= |a| && i < |b| && a[..i] == b[..i] && (i == |a| || a[i] < b[i])
  {
    if a != [] && b != [] && a[0] == b[0] {
      var a', b' := a[1..], b[1..];
      LessIff(a', b');
      if i :| 0 <= i <= |a'| && i < |b'| && a'[..i] == b'[..i] && (i == |a'| || a'[i] < b'[i]) {
        assert a[..i + 1] == [a[0]] + a'[..i] && b[..i + 1] == [b[0]] + b'[..i];
      }
      if i :| 0 <= i <= |a| && i < |b| && a[..i] == b[..i] && (i == |a| || a[i] < b[i]) {
        assert i > 0;
        assert a'[..i - 1] == a[..i][1..] && b'[..i - 1] == b[..i][1..];
      }
    } else if b != [] && (a == [] || a[0] < b[0]) {
      assert a[..0] == b[..0];
    } else {
      assert forall i :: 0 < i <= |a| && i < |b| && a[..i] == b[..i] ==> a[..i][0] == b[..i][0];
    }
  }

  /** A common prefix does not matter. */
  lemma {:induction false} LessBehindPrefix(p: Str, a: Str, b: Str)
    ensures Less(p + a, p + b) <==> Less(a, b)
  {
    if p == [] {
      assert p + a == a && p + b == b;
    } else {
      LessBehindPrefix(p[1..], a, b);
      assert (p + a)[1..] == p[1..] + a && (p + b)[1..] == p[1..] + b;
    }
  }

  /** Strictly increasing keys, hence pairwise distinct. */
  ghost predicate StrictlySorted(keys: seq<Str>) {
    forall i, j :: 0 <= i < j < |keys| ==> Less(keys[i], keys[j])
  }

  // ---------- composite keys ----------

  /** The composite key "tenant:key". */
  function BuildKey(tenant: Str, key: Str): (r: Str) {
    tenant + [COLON] + key
  }

  /** Everything before the first colon, and everything after it. */
  ghost function SplitAtColon(s: Str): (r: Option<(Str, Str)>)
    ensures r.None? <==> COLON !in s
    ensures r.Some? ==> s == BuildKey(r.value.0, r.value.1) && COLON !in r.value.0
  {
    if s == [] then None
    else if s[0] == COLON then
      assert s == BuildKey([], s[1..]);
      Some(([], s[1..]))
    else
      match SplitAtColon(s[1..])
      case None => None
      case Some(p) =>
        assert s == BuildKey([s[0]] + p.0, p.1);
        Some(([s[0]] + p.0, p.1))
  }

  /** A key has one reading as a colon-free tenant and the rest. */
  lemma {:induction false} BuildKeyInjective(t1: Str, k1: Str, t2: Str, k2: Str)
    requires COLON !in t1 && COLON !in t2
    requires BuildKey(t1, k1) == BuildKey(t2, k2)
    ensures t1 == t2 && k1 == k2
  {
    var s := BuildKey(t1, k1);
    assert s[|t1|] == COLON && s[|t2|] == COLON;
    assert s[..|t1|] == t1 && s[..|t2|] == t2;
    assert s[|t1| + 1..] == k1 && s[|t2| + 1..] == k2;
  }

  /** splitCompositeKey: a scan for the first colon; without one the tenant is empty. */
  method SplitCompositeKey(s: Str) returns (tenant: Str, key: Str)
    ensures match SplitAtColon(s)
            case None => tenant == [] && key == s
            case Some(p) => (tenant, key) == p
  {
    for i := 0 to |s|
      invariant COLON !in s[..i]
    {
      if s[i] == COLON {
        tenant, key := s[..i], s[i + 1..];
        assert s == BuildKey(tenant, key);
        ghost var p := SplitAtColon(s);
        if p.Some? { BuildKeyInjective(tenant, key, p.value.0, p.value.1); }
        return;
      }
    }
    assert s[..|s|] == s;
    return [], s;
  }

  /** parseCompositeKey: the same scan, but a key without a colon is an error. */
  method ParseCompositeKey(s: Str) returns (r: Option<(Str, Str)>)
    ensures r == SplitAtColon(s)
  {
    for i := 0 to |s|
      invariant COLON !in s[..i]
    {
      if s[i] == COLON {
        assert s == BuildKey(s[..i], s[i + 1..]);
        ghost var p := SplitAtColon(s);
        if p.Some? { BuildKeyInjective(s[..i], s[i + 1..], p.value.0, p.value.1); }
        return Some((s[..i], s[i + 1..]));
      }
    }
    assert s[..|s|] == s;
    return None;
  }

  /** Splitting undoes building exactly for the tenants the validator accepts. */
  lemma SplitUndoesBuild(tenant: Str, key: Str)
    ensures SplitAtColon(BuildKey(tenant, key)) == Some((tenant, key)) <==> 58 !in tenant
  {
    var s := BuildKey(tenant, key);
    assert s[|tenant|] == COLON;
    var p := SplitAtColon(s).value;
    if COLON !in tenant { BuildKeyInjective(tenant, key, p.0, p.1); }
  }

  /** A tenant's composite keys can be taken for those of another, colon-free tenant exactly if the
      tenant contains a colon. */
  lemma KeysCollideIff(tenant: Str, key: Str)
    ensures (exists t, k :: COLON !in t && BuildKey(t, k) == BuildKey(tenant, key) && (t, k) != (tenant, key)) <==>
        COLON in tenant
  {
    var s := BuildKey(tenant, key);
    assert s[|tenant|] == COLON;
    var p := SplitAtColon(s).value;
    if COLON in tenant {
      assert BuildKey(p.0, p.1) == s;
    } else {
      forall t, k | COLON !in t && BuildKey(t, k) == s
        ensures (t, k) == (tenant, key)
      {
        BuildKeyInjective(t, k, tenant, key);
      }
    }
  }
}
