/** The names `canonical` gives: `B<n>` to the n-th block, `v<n>` to the n-th value. */
module Names {
  import opened Lists
  datatype Name = Name(text: string)

  function Digit(d: nat): char
    requires d < 10
  {
    ['0', '1', '2', '3', '4', '5', '6', '7', '8', '9'][d]
  }

  /** `n` in decimal. */
  function Decimal(n: nat): (s: string)
    ensures |s| > 0
  {
    if n < 10 then [Digit(n)] else Decimal(n / 10) + [Digit(n % 10)]
  }

  /** The number that digits spell. */
  ghost function Read(s: string): int {
    if s == [] then 0 else 10 * Read(s[..|s| - 1]) + (s[|s| - 1] as int - '0' as int)
  }

  lemma DigitIs(d: nat)
    requires d < 10
    ensures Digit(d) as int == '0' as int + d
  {
  }

  /** What is written is read back, and does not begin with a zero. */
  lemma {:induction false} DecimalRead(n: nat)
    ensures Read(Decimal(n)) == n && (n > 0 ==> Decimal(n)[0] != '0')
    ensures forall c :: c in Decimal(n) ==> '0' <= c <= '9'
    decreases n
  {
    DigitIs(n % 10);
    hide Digit;
    if n < 10 {
      assert Decimal(n)[..0] == [];
    } else {
      DecimalRead(n / 10);
      var s := Decimal(n);
      assert s[..|s| - 1] == Decimal(n / 10) && s[|s| - 1] == Digit(n % 10);
    }
  }

  lemma DecimalInjective(m: nat, n: nat)
    requires Decimal(m) == Decimal(n)
    ensures m == n
  {
    DecimalRead(m);
    DecimalRead(n);
  }

  function BlockName(n: nat): Name {
    Name("B" + Decimal(n))
  }

  function ValueName(n: nat): Name {
    Name("v" + Decimal(n))
  }

  lemma NamesDiffer(m: nat, n: nat)
    ensures BlockName(m).text[..1] == "B" && ValueName(n).text[..1] == "v" && BlockName(m) != ValueName(n)
    ensures BlockName(m) == BlockName(n) ==> m == n
    ensures ValueName(m) == ValueName(n) ==> m == n
  {
    assert BlockName(m).text[0] == 'B' && ValueName(n).text[0] == 'v';
    if BlockName(m) == BlockName(n) {
      assert BlockName(m).text[1..] == Decimal(m) && BlockName(n).text[1..] == Decimal(n);
      DecimalInjective(m, n);
    }
    if ValueName(m) == ValueName(n) {
      assert ValueName(m).text[1..] == Decimal(m) && ValueName(n).text[1..] == Decimal(n);
      DecimalInjective(m, n);
    }
  }

  // Places in a list of names

  /** The last place of `x`. */
  function IndexOf(s: seq<Name>, x: Name): (i: nat)
    requires x in s
    ensures i < |s| && s[i] == x && x !in s[i + 1..]
  {
    if s[|s| - 1] == x then |s| - 1 else IndexOf(s[..|s| - 1], x)
  }

  lemma IndexOfAt(s: seq<Name>, i: nat)
    requires Distinct(s) && i < |s|
    ensures IndexOf(s, s[i]) == i
  {
  }

  lemma LastOff(s: seq<Name>)
    requires |s| > 0
    ensures s == s[..|s| - 1] + [s[|s| - 1]]
  {
  }

  /** `seen` is the set of the names listed. */
  ghost predicate Listed(seen: set<Name>, s: seq<Name>) {
    forall x :: x in seen <==> x in s
  }

  lemma ListedMore(seen: set<Name>, s: seq<Name>, x: Name)
    requires Listed(seen, s)
    ensures Listed(seen + {x}, s + [x])
  {
  }

  ghost predicate InjectiveOn(r: Name -> Name, s: seq<Name>) {
    forall x, y :: x in s && y in s && r(x) == r(y) ==> x == y
  }

  lemma MappedMember(r: Name -> Name, s: seq<Name>, x: Name)
    requires forall y :: y in s && r(y) == r(x) ==> y == x
    ensures r(x) in Image(r, s) <==> x in s
  {
    if x in s {
      var i :| 0 <= i < |s| && s[i] == x;
      assert Image(r, s)[i] == r(x);
    }
  }

  /** Renaming apart commutes with dropping repetitions. */
  lemma {:induction false} OnceMapped(r: Name -> Name, s: seq<Name>)
    requires InjectiveOn(r, s)
    ensures Once(Image(r, s)) == Image(r, Once(s))
    decreases |s|
  {
    if s == [] {
    } else {
      var init, last := s[..|s| - 1], s[|s| - 1];
      assert forall x :: x in s <==> x in init || x == last;
      OnceMapped(r, init);
      assert Image(r, s)[..|s| - 1] == Image(r, init);
      var before := Once(init);
      OnceHas(init);
      MappedMember(r, before, last);
      assert Image(r, before + [last]) == Image(r, before) + [r(last)];
    }
  }
}
