/**
 * The `authorize(requiredPermission, roleType)` middleware: OR together the bitmasks of the
 * roles the caller holds in the scope `roleType` names, then let the request through only if
 * every required bit is present.
 */
module Authorization {
  import opened Bits
  import opened Http

  /** A role row as the middleware receives it; only `bitmask` takes part in the decision. */
  datatype Role = Role(id: int, name: string, bitmask: nat)

  const DENIED_MESSAGE := "You do not have the required permissions."

  /** `roles.reduce((acc, role) => acc | role.bitmask, acc)`: a left fold starting from `acc`. */
  function FoldOr(acc: nat, roles: seq<Role>): (r: nat)
    ensures acc <= r
    ensures forall k :: 0 <= k < |roles| ==> roles[k].bitmask <= r
    decreases |roles|
  {
    if roles == [] then acc else FoldOr(Or(acc, roles[0].bitmask), roles[1..])
  }

  /** The aggregate mask of a role list: the fold started from 0. */
  function AggregateMask(roles: seq<Role>): (r: nat)
    ensures roles == [] ==> r == 0
    ensures forall k :: 0 <= k < |roles| ==> roles[k].bitmask <= r
  {
    FoldOr(0, roles)
  }

  /** Some role of the list carries bit `i`. */
  ghost predicate SomeRoleHasBit(roles: seq<Role>, i: nat) {
    exists k :: 0 <= k < |roles| && Bit(roles[k].bitmask, i)
  }

  /** A bit of the fold is a bit of the start value or of some role: the fold is their union. */
  lemma {:induction false} BitOfFold(acc: nat, roles: seq<Role>, i: nat)
    ensures Bit(FoldOr(acc, roles), i) <==> Bit(acc, i) || SomeRoleHasBit(roles, i)
    decreases |roles|
  {
    if roles != [] {
      BitOfFold(Or(acc, roles[0].bitmask), roles[1..], i);
      BitOfOr(acc, roles[0].bitmask, i);
      if SomeRoleHasBit(roles[1..], i) {
        var k :| 0 <= k < |roles[1..]| && Bit(roles[1..][k].bitmask, i);
        assert Bit(roles[k + 1].bitmask, i);
      }
      if SomeRoleHasBit(roles, i) {
        var k :| 0 <= k < |roles| && Bit(roles[k].bitmask, i);
        if k > 0 {
          assert Bit(roles[1..][k - 1].bitmask, i);
        }
      }
    }
  }

  /** The aggregate carries bit `i` exactly when some held role does. */
  lemma BitOfAggregate(roles: seq<Role>, i: nat)
    ensures Bit(AggregateMask(roles), i) <==> SomeRoleHasBit(roles, i)
  {
    BitOfFold(0, roles, i);
    BitOfZero(i);
  }

  /** Every held role's bits are in the aggregate. */
  lemma AggregateCoversEachRole(roles: seq<Role>, k: nat)
    requires k < |roles|
    ensures Covers(AggregateMask(roles), roles[k].bitmask)
  {
    forall i: nat | Bit(roles[k].bitmask, i)
      ensures Bit(AggregateMask(roles), i)
    {
      BitOfAggregate(roles, i);
    }
  }

  /**
   * The aggregate depends only on which roles are held: not on their order and not on
   * repeats.  In particular a permutation of the list gives the same aggregate.
   */
  lemma AggregateOrderIndependent(roles: seq<Role>, other: seq<Role>)
    requires forall r :: r in roles <==> r in other
    ensures AggregateMask(roles) == AggregateMask(other)
  {
    forall i: nat
      ensures Bit(AggregateMask(roles), i) <==> Bit(AggregateMask(other), i)
    {
      BitOfAggregate(roles, i);
      BitOfAggregate(other, i);
      if SomeRoleHasBit(roles, i) {
        var k :| 0 <= k < |roles| && Bit(roles[k].bitmask, i);
        assert roles[k] in other;
      }
      if SomeRoleHasBit(other, i) {
        var k :| 0 <= k < |other| && Bit(other[k].bitmask, i);
        assert other[k] in roles;
      }
    }
    BitsDetermine(AggregateMask(roles), AggregateMask(other));
  }

  /** The aggregate of a concatenation is the OR of the two aggregates. */
  lemma AggregateOfConcat(a: seq<Role>, b: seq<Role>)
    ensures AggregateMask(a + b) == Or(AggregateMask(a), AggregateMask(b))
  {
    forall i: nat
      ensures Bit(AggregateMask(a + b), i) <==> Bit(Or(AggregateMask(a), AggregateMask(b)), i)
    {
      BitOfAggregate(a + b, i);
      BitOfAggregate(a, i);
      BitOfAggregate(b, i);
      BitOfOr(AggregateMask(a), AggregateMask(b), i);
      if SomeRoleHasBit(a + b, i) {
        var k :| 0 <= k < |a + b| && Bit((a + b)[k].bitmask, i);
        if k < |a| {
          assert (a + b)[k] == a[k];
        } else {
          assert (a + b)[k] == b[k - |a|];
        }
      }
      if SomeRoleHasBit(a, i) {
        var k :| 0 <= k < |a| && Bit(a[k].bitmask, i);
        assert (a + b)[k] == a[k];
      }
      if SomeRoleHasBit(b, i) {
        var k :| 0 <= k < |b| && Bit(b[k].bitmask, i);
        assert (a + b)[|a| + k] == b[k];
      }
    }
    BitsDetermine(AggregateMask(a + b), Or(AggregateMask(a), AggregateMask(b)));
  }

  /** The roles of the scope `roleType` names: user roles, event roles, or none. */
  function ScopedRoles(roleType: string, userRoles: seq<Role>, eventRoles: seq<Role>): (r: seq<Role>)
    ensures roleType == "user" ==> r == userRoles
    ensures roleType == "event" ==> r == eventRoles
    ensures roleType != "user" && roleType != "event" ==> r == []
  {
    if roleType == "user" then userRoles
    else if roleType == "event" then eventRoles
    else []
  }

  /** The mask the middleware computes: 0 unless `roleType` is "user" or "event". */
  function ScopedMask(roleType: string, userRoles: seq<Role>, eventRoles: seq<Role>): (r: nat)
    ensures r == AggregateMask(ScopedRoles(roleType, userRoles, eventRoles))
    ensures forall i: nat :: Bit(r, i) <==> SomeRoleHasBit(ScopedRoles(roleType, userRoles, eventRoles), i)
  {
    forall i: nat
      ensures Bit(AggregateMask(ScopedRoles(roleType, userRoles, eventRoles)), i) <==>
              SomeRoleHasBit(ScopedRoles(roleType, userRoles, eventRoles), i)
    {
      BitOfAggregate(ScopedRoles(roleType, userRoles, eventRoles), i);
    }
    if roleType == "user" then AggregateMask(userRoles)
    else if roleType == "event" then AggregateMask(eventRoles)
    else 0
  }

  /**
   * The middleware: `next()` when `(mask & required) === required`, otherwise a 403 answer.
   * The request passes exactly when every bit of `required` is carried by some role of the
   * scope: all required bits are needed, not any one of them.
   */
  function Authorize(required: nat, roleType: string := "user", userRoles: seq<Role>, eventRoles: seq<Role>): (g: Gate)
    ensures g.Next? <==> forall i: nat :: Bit(required, i) ==> SomeRoleHasBit(ScopedRoles(roleType, userRoles, eventRoles), i)
    ensures g.Respond? ==> g == Respond(FORBIDDEN, DENIED_MESSAGE)
  {
    var mask := ScopedMask(roleType, userRoles, eventRoles);
    SubsetIffCovers(mask, required);
    if And(mask, required) == required then Next else Respond(FORBIDDEN, DENIED_MESSAGE)
  }

  /** With no role in the scope (an empty list, or a `roleType` other than "user"/"event") only a zero requirement passes. */
  lemma NoRolesGrantOnlyZero(required: nat, roleType: string, userRoles: seq<Role>, eventRoles: seq<Role>)
    requires ScopedRoles(roleType, userRoles, eventRoles) == []
    ensures Authorize(required, roleType, userRoles, eventRoles).Next? <==> required == 0
  {
    if required != 0 {
      var i := SomeBit(required);
    } else {
      forall i: nat ensures !Bit(required, i) {
        BitOfZero(i);
      }
    }
  }

  /** A nonzero number has a set bit. */
  lemma {:induction false} SomeBit(n: nat) returns (i: nat)
    requires n != 0
    ensures Bit(n, i)
    decreases n
  {
    if n % 2 == 1 {
      i := 0;
    } else {
      var j := SomeBit(n / 2);
      i := j + 1;
    }
  }

  /** Reordering or repeating roles never changes the decision. */
  lemma AuthorizeOrderIndependent(required: nat, roleType: string,
                                  userRoles: seq<Role>, eventRoles: seq<Role>,
                                  userRoles': seq<Role>, eventRoles': seq<Role>)
    requires multiset(userRoles) == multiset(userRoles')
    requires multiset(eventRoles) == multiset(eventRoles')
    ensures Authorize(required, roleType, userRoles, eventRoles) == Authorize(required, roleType, userRoles', eventRoles')
  {
    assert forall r :: r in userRoles <==> r in multiset(userRoles);
    assert forall r :: r in userRoles' <==> r in multiset(userRoles');
    assert forall r :: r in eventRoles <==> r in multiset(eventRoles);
    assert forall r :: r in eventRoles' <==> r in multiset(eventRoles');
    AggregateOrderIndependent(userRoles, userRoles');
    AggregateOrderIndependent(eventRoles, eventRoles');
    SubsetIffCovers(ScopedMask(roleType, userRoles, eventRoles), required);
  }

  /** Holding one more role never turns a grant into a denial, in either scope. */
  lemma AuthorizeMonotonic(required: nat, roleType: string, userRoles: seq<Role>, eventRoles: seq<Role>, extra: Role)
    requires Authorize(required, roleType, userRoles, eventRoles).Next?
    ensures Authorize(required, roleType, userRoles + [extra], eventRoles).Next?
    ensures Authorize(required, roleType, userRoles, eventRoles + [extra]).Next?
  {
    forall i: nat | Bit(required, i)
      ensures SomeRoleHasBit(ScopedRoles(roleType, userRoles + [extra], eventRoles), i)
      ensures SomeRoleHasBit(ScopedRoles(roleType, userRoles, eventRoles + [extra]), i)
    {
      var roles := ScopedRoles(roleType, userRoles, eventRoles);
      var k :| 0 <= k < |roles| && Bit(roles[k].bitmask, i);
      if roleType == "user" {
        assert (userRoles + [extra])[k] == userRoles[k];
      } else if roleType == "event" {
        assert (eventRoles + [extra])[k] == eventRoles[k];
      }
    }
  }

  /** Grants compose: a list granting `p` and granting `q` grants the combined requirement `p | q`. */
  lemma AuthorizeComposes(p: nat, q: nat, roleType: string, userRoles: seq<Role>, eventRoles: seq<Role>)
    requires Authorize(p, roleType, userRoles, eventRoles).Next?
    requires Authorize(q, roleType, userRoles, eventRoles).Next?
    ensures Authorize(Or(p, q), roleType, userRoles, eventRoles).Next?
  {
    forall i: nat | Bit(Or(p, q), i)
      ensures SomeRoleHasBit(ScopedRoles(roleType, userRoles, eventRoles), i)
    {
      BitOfOr(p, q, i);
    }
  }

  /** Holding one of the required bits is not enough: bit 0 alone does not grant bits 0 and 1. */
  lemma OneRequiredBitIsNotEnough()
    ensures Authorize(3, "user", [Role(1, "r", 1)], []).Respond?
  {
    assert Bit(3, 1);
    assert !Bit(1, 1);
  }
}
