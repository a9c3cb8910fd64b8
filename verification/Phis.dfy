/** A phi's pieces and arms under renaming: what is found, and what stays apart. */
module Phis {
  import opened Lists
  import opened IrFunctions
  import opened Canonical

  lemma CharsKept(r: Renaming, s: seq<Piece>, c: char)
    ensures HasChar(RenamePieces(r, s), c) <==> HasChar(s, c)
  {
    var t := RenamePieces(r, s);
    forall i | 0 <= i < |s|
      ensures t[i].Words? <==> s[i].Words?
      ensures s[i].Words? ==> t[i] == s[i]
    {
    }
  }

  lemma PlaceKept(r: Renaming, a: Arm)
    ensures Bracketed(RenameArm(r, a)) <==> Bracketed(a)
    ensures LabelPlace(RenameArm(r, a)) <==> LabelPlace(a)
  {
    CharsKept(r, a.operand, ']');
    CharsKept(r, a.operand, ',');
    hide HasChar;
  }

  lemma FoundParts(s: seq<Arm>, t: seq<Arm>)
    ensures Found(s + t) == Found(s) + Found(t)
  {
    FilterConcat(s, t, a => !Bracketed(a));
  }

  lemma FoundOne(a: Arm)
    ensures Found([a]) == if Bracketed(a) then [] else [a]
  {
    hide Bracketed;
  }

  /** Renaming changes nothing about which arms are found. */
  lemma {:induction false} FoundRenamed(r: Renaming, arms: seq<Arm>)
    ensures Found(RenameArms(r, arms)) == RenameArms(r, Found(arms))
    decreases |arms|
  {
    hide Found, RenameArm, Bracketed;
    if arms == [] {
      NothingFound();
    } else {
      var a, later := arms[0], arms[1..];
      assert arms == [a] + later && RenameArms(r, arms) == [RenameArm(r, a)] + RenameArms(r, later);
      FoundRenamed(r, later);
      PlaceKept(r, a);
      FoundParts([a], later);
      FoundParts([RenameArm(r, a)], RenameArms(r, later));
      FoundOne(a);
      FoundOne(RenameArm(r, a));
      assert RenameArms(r, Found([a]) + Found(later)) == RenameArms(r, Found([a])) + RenameArms(r, Found(later));
    }
  }

  lemma NothingFound()
    ensures Found([]) == []
  {
  }

  lemma {:induction false} FoundAll(arms: seq<Arm>)
    requires forall i :: 0 <= i < |arms| ==> !Bracketed(arms[i])
    ensures Found(arms) == arms
    decreases |arms|
  {
    hide Found, Bracketed;
    if arms == [] {
      NothingFound();
    } else {
      assert arms == [arms[0]] + arms[1..];
      FoundAll(arms[1..]);
      FoundParts([arms[0]], arms[1..]);
      FoundOne(arms[0]);
    }
  }

  lemma FoundAgain(arms: seq<Arm>)
    ensures Found(Found(arms)) == Found(arms)
  {
    var found := Found(arms);
    assert forall a :: a in found ==> !Bracketed(a);
    forall i | 0 <= i < |found|
      ensures !Bracketed(found[i])
    {
      assert found[i] in found;
    }
    hide Found, Bracketed;
    FoundAll(found);
  }

  /** A bracketed arm is lost. */
  lemma {:induction false} FoundFewer(arms: seq<Arm>, i: nat)
    requires i < |arms| && Bracketed(arms[i])
    ensures |Found(arms)| < |arms|
    decreases |arms|
  {
    hide Bracketed;
    assert arms == [arms[0]] + arms[1..];
    if i == 0 {
    } else {
      FoundFewer(arms[1..], i - 1);
    }
  }

  lemma {:induction false} FoundCount(arms: seq<Arm>, a: Arm)
    ensures multiset(Found(arms))[a] == if Bracketed(a) then 0 else multiset(arms)[a]
    decreases |arms|
  {
    hide Found, Bracketed;
    if arms == [] {
      NothingFound();
    } else {
      assert arms == [arms[0]] + arms[1..];
      FoundCount(arms[1..], a);
      FoundParts([arms[0]], arms[1..]);
      FoundOne(arms[0]);
    }
  }

  /** The same arms in another order are found alike. */
  lemma FoundSame(s: seq<Arm>, t: seq<Arm>)
    requires multiset(s) == multiset(t)
    ensures multiset(Found(s)) == multiset(Found(t))
  {
    hide Found, Bracketed;
    forall a: Arm
      ensures multiset(Found(s))[a] == multiset(Found(t))[a]
    {
      FoundCount(s, a);
      FoundCount(t, a);
    }
  }

  lemma FoundIn(arms: seq<Arm>, i: nat) returns (j: nat)
    requires i < |arms| && !Bracketed(arms[i])
    ensures j < |Found(arms)| && Found(arms)[j] == arms[i]
  {
    hide Bracketed;
    assert arms[i] in Found(arms);
    j :| 0 <= j < |Found(arms)| && Found(arms)[j] == arms[i];
  }

  lemma FoundFrom(arms: seq<Arm>, j: nat) returns (i: nat)
    requires j < |Found(arms)|
    ensures i < |arms| && arms[i] == Found(arms)[j]
  {
    hide Bracketed;
    assert Found(arms)[j] in Found(arms);
    i :| 0 <= i < |arms| && arms[i] == Found(arms)[j];
  }

  /** Renaming loses nothing and brings nothing back. */
  lemma StaysInFull(r: Renaming, s: Stmt)
    ensures InFull(RenameStmt(r, s)) <==> InFull(s)
  {
    if s.Phi? {
      var t := RenameStmt(r, s);
      forall i | 0 <= i < |s.arms|
        ensures Bracketed(t.arms[i]) <==> Bracketed(s.arms[i])
      {
        assert t.arms[i] == RenameArm(r, s.arms[i]);
        PlaceKept(r, s.arms[i]);
      }
    }
  }
}
