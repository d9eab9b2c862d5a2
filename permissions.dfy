/**
 * The two permission vocabularies, each flag written `1 << i` as in the source.  User-scope
 * flags occupy bits 0..9, event-scope flags bits 0..4; the scopes reuse bit positions and a
 * user-scope mask is never tested against an event-scope requirement.
 */
module Permissions {
  import opened Bits

  // User scope
  const CREATE_EVENT: nat := Flag(0)
  const MANAGE_USER_ROLES: nat := Flag(1)
  const VIEW_ATTENDANCE: nat := Flag(2)
  const MANAGE_USERS: nat := Flag(3)
  const SEND_NOTIFICATIONS: nat := Flag(4)
  const MANAGE_PERMISSIONS: nat := Flag(5)
  const VIEW_EVENTS: nat := Flag(6)
  const DELETE_EVENTS: nat := Flag(7)
  const MODIFY_EVENTS: nat := Flag(8)
  const MARK_ATTENDANCE: nat := Flag(9)

  // Event scope
  const EVENT_MARK_ATTENDANCE: nat := Flag(0)
  const EVENT_MODIFY_EVENT: nat := Flag(1)
  const EVENT_DELETE_EVENT: nat := Flag(2)
  const EVENT_VIEW_ATTENDANCE: nat := Flag(3)
  const EVENT_SEND_NOTIFICATIONS: nat := Flag(4)

  /** The user-scope flags in declaration order. */
  const USER_FLAGS: seq<nat> := [
    CREATE_EVENT, MANAGE_USER_ROLES, VIEW_ATTENDANCE, MANAGE_USERS, SEND_NOTIFICATIONS,
    MANAGE_PERMISSIONS, VIEW_EVENTS, DELETE_EVENTS, MODIFY_EVENTS, MARK_ATTENDANCE]

  /** The event-scope flags in declaration order. */
  const EVENT_FLAGS: seq<nat> := [
    EVENT_MARK_ATTENDANCE, EVENT_MODIFY_EVENT, EVENT_DELETE_EVENT,
    EVENT_VIEW_ATTENDANCE, EVENT_SEND_NOTIFICATIONS]

  /** Number of bit positions each vocabulary uses. */
  const USER_WIDTH := 10
  const EVENT_WIDTH := 5

  /** The OR of a list of flags. */
  function UnionOf(flags: seq<nat>): nat {
    if flags == [] then 0 else Or(flags[0], UnionOf(flags[1..]))
  }

  /** All bits of `m` lie below position `w`. */
  ghost predicate WithinWidth(m: nat, w: nat) {
    forall i: nat :: Bit(m, i) ==> i < w
  }

  /** A vocabulary of width `w`: entry `i` is `1 << i`, so the entries are distinct single bits below `w`. */
  ghost predicate Vocabulary(flags: seq<nat>, w: nat) {
    |flags| == w && forall i :: 0 <= i < |flags| ==> flags[i] == Flag(i)
  }

  /** Different flags share no bit. */
  lemma FlagsDisjoint(i: nat, j: nat)
    requires i != j
    ensures And(Flag(i), Flag(j)) == 0
  {
    forall k: nat
      ensures !(Bit(Flag(i), k) && Bit(Flag(j), k))
    {
      BitOfFlag(i, k);
      BitOfFlag(j, k);
    }
    AndOfBitDisjoint(Flag(i), Flag(j));
  }

  /** Numbers below `1 << w` have no bit at or above `w`. */
  lemma {:induction false} BelowFlagIsWithin(m: nat, w: nat)
    requires m < Flag(w)
    ensures WithinWidth(m, w)
    decreases w
  {
    forall i: nat | Bit(m, i)
      ensures i < w
    {
      if w == 0 {
        assert m == 0;
        BitOfZero(i);
      } else if i > 0 {
        assert m / 2 < Flag(w - 1);
        BelowFlagIsWithin(m / 2, w - 1);
        assert Bit(m / 2, i - 1);
      }
    }
  }

  /** Within each scope the flags are pairwise disjoint: no permission shares a bit with another. */
  lemma VocabulariesAreSingleDistinctBits()
    ensures forall i, j :: 0 <= i < j < |USER_FLAGS| ==> And(USER_FLAGS[i], USER_FLAGS[j]) == 0
    ensures forall i, j :: 0 <= i < j < |EVENT_FLAGS| ==> And(EVENT_FLAGS[i], EVENT_FLAGS[j]) == 0
  {
    forall i, j | 0 <= i < j < |USER_FLAGS|
      ensures And(USER_FLAGS[i], USER_FLAGS[j]) == 0
    {
      FlagsDisjoint(i, j);
    }
    forall i, j | 0 <= i < j < |EVENT_FLAGS|
      ensures And(EVENT_FLAGS[i], EVENT_FLAGS[j]) == 0
    {
      FlagsDisjoint(i, j);
    }
  }

  /**
   * The flags' values: each list is a vocabulary, entry i being `1 << i`, and all of them fit
   * below 2^10, well inside a 32-bit word.
   */
  lemma FlagValues()
    ensures Vocabulary(USER_FLAGS, USER_WIDTH) && Vocabulary(EVENT_FLAGS, EVENT_WIDTH)
    ensures USER_FLAGS == [1, 2, 4, 8, 16, 32, 64, 128, 256, 512]
    ensures EVENT_FLAGS == [1, 2, 4, 8, 16]
    ensures forall i :: 0 <= i < |USER_FLAGS| ==> USER_FLAGS[i] < 1024 && WithinWidth(USER_FLAGS[i], USER_WIDTH)
    ensures forall i :: 0 <= i < |EVENT_FLAGS| ==> EVENT_FLAGS[i] < 32 && WithinWidth(EVENT_FLAGS[i], EVENT_WIDTH)
  {
    assert Flag(10) == 1024 && Flag(5) == 32;
    forall i | 0 <= i < |USER_FLAGS|
      ensures WithinWidth(USER_FLAGS[i], USER_WIDTH)
    {
      BelowFlagIsWithin(USER_FLAGS[i], USER_WIDTH);
    }
    forall i | 0 <= i < |EVENT_FLAGS|
      ensures WithinWidth(EVENT_FLAGS[i], EVENT_WIDTH)
    {
      BelowFlagIsWithin(EVENT_FLAGS[i], EVENT_WIDTH);
    }
  }

  /** A bit of the union is a bit of one of the flags. */
  lemma {:induction false} BitOfUnion(flags: seq<nat>, i: nat)
    ensures Bit(UnionOf(flags), i) <==> exists j :: 0 <= j < |flags| && Bit(flags[j], i)
    decreases |flags|
  {
    if flags == [] {
      BitOfZero(i);
    } else {
      BitOfUnion(flags[1..], i);
      BitOfOr(flags[0], UnionOf(flags[1..]), i);
      if exists j :: 0 <= j < |flags[1..]| && Bit(flags[1..][j], i) {
        var j :| 0 <= j < |flags[1..]| && Bit(flags[1..][j], i);
        assert Bit(flags[j + 1], i);
      }
      if exists j :: 0 <= j < |flags| && Bit(flags[j], i) {
        var j :| 0 <= j < |flags| && Bit(flags[j], i);
        if j > 0 {
          assert Bit(flags[1..][j - 1], i);
        }
      }
    }
  }

  /** `(1 << w) - 1` has exactly the bits 0..w-1. */
  lemma {:induction false} BitOfLowMask(w: nat, i: nat)
    ensures Bit(Flag(w) - 1, i) <==> i < w
    decreases w
  {
    if w == 0 {
      BitOfZero(i);
    } else if i > 0 {
      assert (Flag(w) - 1) / 2 == Flag(w - 1) - 1;
      BitOfLowMask(w - 1, i - 1);
    }
  }

  /** A vocabulary of width `w` together is `(1 << w) - 1`: bits 0..w-1, nothing else. */
  lemma UnionOfVocabulary(flags: seq<nat>, w: nat)
    requires Vocabulary(flags, w)
    ensures UnionOf(flags) == Flag(w) - 1
  {
    forall i: nat
      ensures Bit(UnionOf(flags), i) <==> Bit(Flag(w) - 1, i)
    {
      BitOfUnion(flags, i);
      BitOfLowMask(w, i);
      if i < w {
        BitOfFlag(i, i);
        assert Bit(flags[i], i);
      }
      forall j | 0 <= j < |flags| && Bit(flags[j], i)
        ensures i < w
      {
        BitOfFlag(j, i);
      }
    }
    BitsDetermine(UnionOf(flags), Flag(w) - 1);
  }

  /** Together the ten user flags are bits 0..9 (1023), the five event flags bits 0..4 (31). */
  lemma VocabulariesFillTheirWidth()
    ensures UnionOf(USER_FLAGS) == 1023
    ensures UnionOf(EVENT_FLAGS) == 31
  {
    FlagValues();
    UnionOfVocabulary(USER_FLAGS, USER_WIDTH);
    UnionOfVocabulary(EVENT_FLAGS, EVENT_WIDTH);
    assert Flag(10) == 1024 && Flag(5) == 32;
  }

  /** The scopes reuse bit positions: the same number names different permissions in each. */
  lemma ScopesShareBitPositions()
    ensures EVENT_MARK_ATTENDANCE == CREATE_EVENT == 1
    ensures EVENT_SEND_NOTIFICATIONS == SEND_NOTIFICATIONS == 16
  {}

  /** The flags at the given bit positions, `1 << p` for each `p`. */
  function FlagsAt(positions: seq<nat>): (flags: seq<nat>)
    ensures |flags| == |positions|
    ensures forall k :: 0 <= k < |positions| ==> flags[k] == Flag(positions[k])
  {
    if positions == [] then [] else [Flag(positions[0])] + FlagsAt(positions[1..])
  }

  function Sum(xs: seq<nat>): nat {
    if xs == [] then 0 else xs[0] + Sum(xs[1..])
  }

  /** Flags at distinct positions never overlap, so their OR is their sum. */
  lemma {:induction false} UnionOfDistinctFlagsIsSum(positions: seq<nat>)
    requires forall k, l :: 0 <= k < l < |positions| ==> positions[k] != positions[l]
    ensures UnionOf(FlagsAt(positions)) == Sum(FlagsAt(positions))
    decreases |positions|
  {
    if positions != [] {
      var flags := FlagsAt(positions);
      assert flags[1..] == FlagsAt(positions[1..]);
      UnionOfDistinctFlagsIsSum(positions[1..]);
      var p := positions[0];
      forall i: nat
        ensures !(Bit(flags[0], i) && Bit(UnionOf(flags[1..]), i))
      {
        BitOfFlag(p, i);
        BitOfUnion(flags[1..], i);
        if Bit(flags[0], i) && Bit(UnionOf(flags[1..]), i) {
          var j :| 0 <= j < |flags[1..]| && Bit(flags[1..][j], i);
          BitOfFlag(positions[j + 1], i);
          assert false;
        }
      }
      AndOfBitDisjoint(flags[0], UnionOf(flags[1..]));
      OrOfDisjointIsSum(flags[0], UnionOf(flags[1..]));
    }
  }
}
