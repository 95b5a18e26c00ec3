/** The list of license units the view tests enumerate: "by" followed by an
    optional "nc", "nd" and "sa", in that order, leaving out the combinations
    that hold both "nd" and "sa". */
module Units {
  import opened Text

  /** The parts the loop collects for one bit pattern: bits & 1, bits & 2
      and bits & 4 of a non-negative bits are its last three binary digits. */
  function PartsFor(bits: nat): (parts: seq<string>)
    ensures |parts| >= 1 && parts[0] == "by"
  {
    ["by"] + (if bits % 2 == 1 then ["nc"] else [])
           + (if bits / 2 % 2 == 1 then ["nd"] else [])
           + (if bits / 4 % 2 == 1 then ["sa"] else [])
  }

  /** "nd" and "sa" are not compatible. */
  predicate Compatible(parts: seq<string>) {
    !("nd" in parts && "sa" in parts)
  }

  /** The unit one bit pattern contributes: none when its parts are not
      compatible. */
  function UnitOf(bits: nat): seq<string> {
    if Compatible(PartsFor(bits)) then [Join('-', PartsFor(bits))] else []
  }

  /** The units produced for the bit patterns 0 .. n-1, in order. */
  function UnitsBelow(n: nat): (units: seq<string>)
    ensures |units| <= n
  {
    if n == 0 then [] else UnitsBelow(n - 1) + UnitOf(n - 1)
  }

  lemma UnitsBelowStep(bits: nat)
    ensures var parts := PartsFor(bits);
            UnitsBelow(bits + 1) == UnitsBelow(bits) + (if "nd" in parts && "sa" in parts then [] else [Join('-', parts)])
  {
  }

  /** The start of the loop body: "by", then "nc", "nd" and "sa" for the
      bits that are set. */
  method CollectParts(bits: nat) returns (parts: seq<string>)
    ensures parts == PartsFor(bits)
  {
    parts := ["by"];
    if bits % 2 == 1 {
      parts := parts + ["nc"];
    }
    if bits / 2 % 2 == 1 {
      parts := parts + ["nd"];
    }
    if bits / 4 % 2 == 1 {
      parts := parts + ["sa"];
    }
  }

  /** The loop over range(8) that builds the units list. */
  method EnumerateUnits() returns (units: seq<string>)
    ensures units == UnitsBelow(8)
  {
    units := [];
    var bits := 0;
    while bits < 8
      invariant 0 <= bits <= 8
      invariant units == UnitsBelow(bits)
    {
      var parts := CollectParts(bits);
      UnitsBelowStep(bits);
      if "nd" in parts && "sa" in parts {
        bits := bits + 1;
        continue;
      }
      units := units + [Join('-', parts)];
      bits := bits + 1;
    }
  }

  /** Bit pattern bits yields the unit u: its parts are compatible and
      join to u. */
  predicate Yields(bits: nat, u: string) {
    Compatible(PartsFor(bits)) && u == Join('-', PartsFor(bits))
  }

  lemma UnitOfYields(bits: nat, u: string)
    ensures u in UnitOf(bits) <==> Yields(bits, u)
  {
  }

  /** The lists f(0), ..., f(n-1) one after the other. */
  function ConcatBelow(f: nat -> seq<string>, n: nat): seq<string> {
    if n == 0 then [] else ConcatBelow(f, n - 1) + f(n - 1)
  }

  lemma {:induction false} ConcatBelowMembers(f: nat -> seq<string>, n: nat, u: string)
    ensures u in ConcatBelow(f, n) <==> exists b :: 0 <= b < n && u in f(b)
  {
    if n > 0 {
      ConcatBelowMembers(f, n - 1, u);
      assert u in ConcatBelow(f, n) <==> u in ConcatBelow(f, n - 1) || u in f(n - 1);
      if exists b :: 0 <= b < n && u in f(b) {
        var b :| 0 <= b < n && u in f(b);
        assert b < n - 1 || u in f(n - 1);
      }
    }
  }

  lemma {:induction false} UnitsBelowIsConcat(n: nat)
    ensures UnitsBelow(n) == ConcatBelow(UnitOf, n)
  {
    if n > 0 {
      UnitsBelowIsConcat(n - 1);
      assert ConcatBelow(UnitOf, n) == ConcatBelow(UnitOf, n - 1) + UnitOf(n - 1);
    }
  }

  /** A unit is listed exactly when some bit pattern below n yields it. */
  lemma UnitsBelowMembers(n: nat, u: string)
    ensures u in UnitsBelow(n) <==> exists bits :: 0 <= bits < n && Yields(bits, u)
  {
    UnitsBelowIsConcat(n);
    ConcatBelowMembers(UnitOf, n, u);
    forall bits: nat
      ensures u in UnitOf(bits) <==> Yields(bits, u)
    {
      UnitOfYields(bits, u);
    }
  }

  lemma UnitsAfterPattern0()
    ensures UnitsBelow(1) == ["by"]
  {
    assert PartsFor(0) == ["by"];
    assert Join('-', ["by"]) == "by";
  }

  lemma UnitsAfterPattern1()
    ensures UnitsBelow(2) == ["by", "by-nc"]
  {
    UnitsAfterPattern0();
    assert PartsFor(1) == ["by", "nc"];
    assert Join('-', ["by", "nc"]) == "by-nc";
  }

  lemma UnitsAfterPattern2()
    ensures UnitsBelow(3) == ["by", "by-nc", "by-nd"]
  {
    UnitsAfterPattern1();
    assert PartsFor(2) == ["by", "nd"];
    assert Join('-', ["by", "nd"]) == "by-nd";
  }

  lemma UnitsAfterPattern3()
    ensures UnitsBelow(4) == ["by", "by-nc", "by-nd", "by-nc-nd"]
  {
    UnitsAfterPattern2();
    assert PartsFor(3) == ["by", "nc", "nd"];
    assert Join('-', ["nc", "nd"]) == "nc-nd";
    assert Join('-', ["by", "nc", "nd"]) == "by-nc-nd";
  }

  lemma UnitsAfterPattern4()
    ensures UnitsBelow(5) == ["by", "by-nc", "by-nd", "by-nc-nd", "by-sa"]
  {
    UnitsAfterPattern3();
    assert PartsFor(4) == ["by", "sa"];
    assert Join('-', ["by", "sa"]) == "by-sa";
  }

  lemma UnitsAfterPattern5()
    ensures UnitsBelow(6) == ["by", "by-nc", "by-nd", "by-nc-nd", "by-sa", "by-nc-sa"]
  {
    UnitsAfterPattern4();
    assert PartsFor(5) == ["by", "nc", "sa"];
    assert Join('-', ["nc", "sa"]) == "nc-sa";
    assert Join('-', ["by", "nc", "sa"]) == "by-nc-sa";
  }

  /** Bit patterns 6 and 7 select both "nd" and "sa" and add nothing. */
  lemma PatternsSixAndSevenSkipped()
    ensures UnitsBelow(8) == UnitsBelow(7) == UnitsBelow(6)
  {
    assert PartsFor(6) == ["by", "nd", "sa"];
    assert PartsFor(7) == ["by", "nc", "nd", "sa"];
  }

  /** The enumeration yields exactly the six units, in this order: bit
      patterns 6 and 7 select both "nd" and "sa" and are skipped. */
  lemma SixUnits()
    ensures UnitsBelow(8) == ["by", "by-nc", "by-nd", "by-nc-nd", "by-sa", "by-nc-sa"]
  {
    UnitsAfterPattern5();
    PatternsSixAndSevenSkipped();
  }

  /** Reading a listed unit back into its parts: the first is "by", the
      others are the ones some bit pattern selects (so nc, nd, sa keep that
      order), and "nd" and "sa" never appear together. */
  lemma UnitParts(n: nat, u: string)
    requires u in UnitsBelow(n)
    ensures var parts := Split(u, '-');
            parts[0] == "by" && Compatible(parts) && exists bits :: 0 <= bits < n && parts == PartsFor(bits)
  {
    UnitsBelowMembers(n, u);
    var bits :| 0 <= bits < n && Yields(bits, u);
    PartsWithoutSeparator(bits);
    SplitJoin('-', PartsFor(bits));
  }

  lemma PartsWithoutSeparator(bits: nat)
    ensures forall p | p in PartsFor(bits) :: '-' !in p
  {
    assert forall p | p in PartsFor(bits) :: p == "by" || p == "nc" || p == "nd" || p == "sa";
  }
}
