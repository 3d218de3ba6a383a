/**
 * The role-name registry `RoleType` of the security package: a closed
 * enumeration of two roles and a static lookup from a role name to the role.
 */
module RoleTypes {
  import opened Wrappers

  /** The enum constants, in declaration order. */
  datatype RoleType = RoleAdmin | RoleUser

  /**
   * A Java `String` reference passed to the lookup: `None` is `null`,
   * `Some(s)` a (possibly empty) string.
   */
  type JavaString = Option<string>

  /** The enum constant's `name()`: its identifier exactly as declared. */
  function Name(r: RoleType): string
  {
    match r
    case RoleAdmin => "ROLE_ADMIN"
    case RoleUser => "ROLE_USER"
  }

  /**
   * `values()`: every constant exactly once, in declaration order.
   */
  function Values(): (vs: seq<RoleType>)
    ensures RoleAdmin in vs && RoleUser in vs
    ensures forall i, j :: 0 <= i < j < |vs| ==> vs[i] != vs[j]
    ensures |vs| == 2 && vs[0] == RoleAdmin
  {
    [RoleAdmin, RoleUser]
  }

  /** The table is complete: every constant of the enum is listed by `values()`. */
  lemma EveryVariantListed(r: RoleType)
    ensures r in Values()
  {
    match r
    case RoleAdmin =>
    case RoleUser =>
  }

  /**
   * `role.name().equals(type)`: exact, case-sensitive comparison; a `null`
   * argument is equal to no name.
   */
  predicate NameEquals(r: RoleType, t: JavaString)
  {
    t.Some? && Name(r) == t.value
  }

  /** Distinct constants have distinct names. */
  lemma NameInjective(r1: RoleType, r2: RoleType)
    ensures Name(r1) == Name(r2) <==> r1 == r2
  {
    if r1 != r2 {
      assert |Name(r1)| != |Name(r2)|;
    }
  }

  /**
   * The linear scan of the `for` loop over `vals`: the first constant whose
   * name equals `t`, or `None` (Java `null`) once the table is exhausted.
   */
  function FindIn(vals: seq<RoleType>, t: JavaString): (r: Option<RoleType>)
    ensures r.Some? ==> r.value in vals && NameEquals(r.value, t)
    ensures r.None? <==> forall i :: 0 <= i < |vals| ==> !NameEquals(vals[i], t)
  {
    if vals == [] then None
    else if NameEquals(vals[0], t) then Some(vals[0])
    else FindIn(vals[1..], t)
  }

  /** `RoleType.findByType(type)`. */
  function FindByType(t: JavaString): (r: Option<RoleType>)
    ensures r.Some? <==> t == Some("ROLE_ADMIN") || t == Some("ROLE_USER")
    ensures r.Some? ==> t == Some(Name(r.value))
  {
    var r := FindIn(Values(), t);
    assert NameEquals(RoleAdmin, t) ==> Values()[0] == RoleAdmin;
    assert NameEquals(RoleUser, t) ==> Values()[1] == RoleUser;
    r
  }

  /**
   * The scan as the source writes it: a loop over `values()` that
   * returns the first constant whose name equals `t`, and `null` after the
   * loop.
   */
  method FindByTypeScan(t: JavaString) returns (r: Option<RoleType>)
    ensures r == FindByType(t)
    ensures r.None? <==> forall v: RoleType :: !NameEquals(v, t)
  {
    var vs := Values();
    var i := 0;
    while i < |vs|
      invariant 0 <= i <= |vs|
      invariant forall j :: 0 <= j < i ==> !NameEquals(vs[j], t)
    {
      if NameEquals(vs[i], t) {
        MatchIsFound(vs, t, vs[i]);
        return Some(vs[i]);
      }
      i := i + 1;
    }
    forall v: RoleType ensures !NameEquals(v, t) {
      EveryVariantListed(v);
    }
    return None;
  }

  /**
   * First-match semantics of the scan, whatever the table: when `vals[i]` is
   * the first entry whose name equals `t`, the scan returns it.
   */
  lemma {:induction false} FindInIsFirstMatch(vals: seq<RoleType>, t: JavaString, i: nat)
    requires i < |vals| && NameEquals(vals[i], t)
    requires forall j :: 0 <= j < i ==> !NameEquals(vals[j], t)
    ensures FindIn(vals, t) == Some(vals[i])
  {
    if i > 0 {
      FindInIsFirstMatch(vals[1..], t, i - 1);
    }
  }

  /**
   * Names are pairwise distinct, so a constant of the table whose name equals
   * `t` is what the scan returns: the first match is the only match.
   */
  lemma MatchIsFound(vals: seq<RoleType>, t: JavaString, v: RoleType)
    requires v in vals && NameEquals(v, t)
    ensures FindIn(vals, t) == Some(v)
  {
    var r := FindIn(vals, t);
    NameInjective(r.value, v);
  }

  /** Round trip from a constant: `findByType(r.name())` is `r`. */
  lemma RoundTripFromVariant(r: RoleType)
    ensures FindByType(Some(Name(r))) == Some(r)
  {
    EveryVariantListed(r);
    MatchIsFound(Values(), Some(Name(r)), r);
  }

  /** Round trip from a string: a found constant's name is the argument. */
  lemma RoundTripFromString(s: string, r: RoleType)
    requires FindByType(Some(s)) == Some(r)
    ensures Name(r) == s
  {
  }

  /** Any string other than the two exact names is not found; nothing is raised. */
  lemma UnknownIsNotFound(s: string)
    requires s != "ROLE_ADMIN" && s != "ROLE_USER"
    ensures FindByType(Some(s)) == None
  {
  }

  /**
   * The empty string, an unknown role, a case variant and `null` are all
   * not found: the comparison is exact and `equals(null)` is false.
   */
  lemma NotFoundCases()
    ensures FindByType(Some("")) == None
    ensures FindByType(Some("ROLE_GUEST")) == None
    ensures FindByType(Some("role_admin")) == None
    ensures FindByType(None) == None
  {
  }

  /**
   * The declaration order does not change the answer: scanning any table
   * that lists the same constants, in any order and with any repetition,
   * finds the same constant.
   */
  lemma ScanOrderIrrelevant(p: seq<RoleType>, q: seq<RoleType>, t: JavaString)
    requires forall v :: v in p <==> v in q
    ensures FindIn(p, t) == FindIn(q, t)
  {
    var rp := FindIn(p, t);
    if rp.Some? {
      MatchIsFound(q, t, rp.value);
    } else {
      var rq := FindIn(q, t);
      if rq.Some? {
        MatchIsFound(p, t, rq.value);
      }
    }
  }
}
