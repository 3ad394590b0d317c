/** The memoised walk going wrong under the program's own hash. */
module MemoFailure {
  import opened Bytes
  import opened DiskFormat
  import opened DomainRules
  import opened MemoWalk
  import DiskStore

  const C: Name := [99]
  const B_C: Name := [98, DOT, 99]
  const A_B_C: Name := [97, DOT, 98, DOT, 99]
  const X_A_B_C: Name := [120, DOT, 97, DOT, 98, DOT, 99]

  // ---------------------------------------------------------------- four hashes

  lemma Step(h: bv64, s: Name, b: byte, next: bv64)
    requires s != [] && s[0] == b && LowerByte(b) == b && DiskStore.FnvStep(h, b) == next
    ensures DiskStore.Fold(DiskStore.FnvStep, h, s) == DiskStore.Fold(DiskStore.FnvStep, next, s[1..])
  {
  }

  lemma StepsB_C()
    ensures DiskStore.FnvStep(0xCBF29CE484222325, 98) == 0xAF63DF4C8601F1A5
    ensures DiskStore.FnvStep(0xAF63DF4C8601F1A5, 46) == 0x08A5FA07B54D6F31
    ensures DiskStore.FnvStep(0x08A5FA07B54D6F31, 99) == 0xFF772D1912942856
    ensures DiskStore.FnvStep(0xCBF29CE484222325, 99) == 0xAF63DE4C8601EFF2
  {
  }

  lemma StepsA_B_C()
    ensures DiskStore.FnvStep(0xCBF29CE484222325, 97) == 0xAF63DC4C8601EC8C
    ensures DiskStore.FnvStep(0xAF63DC4C8601EC8C, 46) == 0x089BF807B5451746
    ensures DiskStore.FnvStep(0x089BF807B5451746, 98) == 0xE61D99190466522C
    ensures DiskStore.FnvStep(0xE61D99190466522C, 46) == 0x6A9D278279DD5966
    ensures DiskStore.FnvStep(0x6A9D278279DD5966, 99) == 0x066327B5131E437F
  {
  }

  lemma StepsX_A_B_C()
    ensures DiskStore.FnvStep(0xCBF29CE484222325, 120) == 0xAF63F54C86021707
    ensures DiskStore.FnvStep(0xAF63F54C86021707, 46) == 0x08F0FA07B58D5AAB
    ensures DiskStore.FnvStep(0x08F0FA07B58D5AAB, 97) == 0xBED3A5197F31453E
    ensures DiskStore.FnvStep(0xBED3A5197F31453E, 46) == 0x72E69A5320B85A30
    ensures DiskStore.FnvStep(0x72E69A5320B85A30, 98) == 0xF6328D4099417956
    ensures DiskStore.FnvStep(0xF6328D4099417956, 46) == 0x995F7CC46A4166E8
    ensures DiskStore.FnvStep(0x995F7CC46A4166E8, 99) == 0xDEA78CC08D213E31
  {
  }

  lemma HashC()
    ensures DiskStore.Fnv(C) == 0xAF63DE4C8601EFF2
  {
    hide DiskStore.FnvStep;
    StepsB_C();
    Step(0xCBF29CE484222325, C[0..], 99, 0xAF63DE4C8601EFF2);
  }

  lemma HashB_C()
    ensures DiskStore.Fnv(B_C) == 0xFF772D1912942856
  {
    hide DiskStore.FnvStep;
    StepsB_C();
    Step(0xCBF29CE484222325, B_C[0..], 98, 0xAF63DF4C8601F1A5);
    Step(0xAF63DF4C8601F1A5, B_C[1..], 46, 0x08A5FA07B54D6F31);
    Step(0x08A5FA07B54D6F31, B_C[2..], 99, 0xFF772D1912942856);
  }

  lemma HashA_B_C()
    ensures DiskStore.Fnv(A_B_C) == 0x066327B5131E437F
  {
    hide DiskStore.FnvStep;
    StepsA_B_C();
    Step(0xCBF29CE484222325, A_B_C[0..], 97, 0xAF63DC4C8601EC8C);
    Step(0xAF63DC4C8601EC8C, A_B_C[1..], 46, 0x089BF807B5451746);
    Step(0x089BF807B5451746, A_B_C[2..], 98, 0xE61D99190466522C);
    Step(0xE61D99190466522C, A_B_C[3..], 46, 0x6A9D278279DD5966);
    Step(0x6A9D278279DD5966, A_B_C[4..], 99, 0x066327B5131E437F);
  }

  lemma HashX_A_B_C()
    ensures DiskStore.Fnv(X_A_B_C) == 0xDEA78CC08D213E31
  {
    hide DiskStore.FnvStep;
    StepsX_A_B_C();
    Step(0xCBF29CE484222325, X_A_B_C[0..], 120, 0xAF63F54C86021707);
    Step(0xAF63F54C86021707, X_A_B_C[1..], 46, 0x08F0FA07B58D5AAB);
    Step(0x08F0FA07B58D5AAB, X_A_B_C[2..], 97, 0xBED3A5197F31453E);
    Step(0xBED3A5197F31453E, X_A_B_C[3..], 46, 0x72E69A5320B85A30);
    Step(0x72E69A5320B85A30, X_A_B_C[4..], 98, 0xF6328D4099417956);
    Step(0xF6328D4099417956, X_A_B_C[5..], 46, 0x995F7CC46A4166E8);
    Step(0x995F7CC46A4166E8, X_A_B_C[6..], 99, 0xDEA78CC08D213E31);
  }

  // ---------------------------------------------------------------- two questions

  const NAMES: set<Name> := {C, B_C, A_B_C, X_A_B_C}

  /** The four names hash apart and are closed under suffixes. */
  lemma NamesAreApart()
    ensures Universe(DiskStore.Fnv, NAMES)
  {
    hide DiskStore.Fnv;
    HashesAreApart();
    NamesAreClosed();
  }

  lemma HashesAreApart()
    ensures forall a, b :: a in NAMES && b in NAMES && DiskStore.Fnv(a) == DiskStore.Fnv(b) ==> a == b
  {
    HashC();
    HashB_C();
    HashA_B_C();
    HashX_A_B_C();
    hide DiskStore.Fnv;
  }

  lemma NamesAreClosed()
    ensures forall n :: n in NAMES ==> IsLower(n)
    ensures forall n, k :: n in NAMES && SuffixAt(n, k) ==> n[k + 1..] in NAMES
  {
    assert X_A_B_C[2..] == A_B_C && X_A_B_C[4..] == B_C && X_A_B_C[6..] == C;
    assert A_B_C[2..] == B_C && A_B_C[4..] == C && B_C[2..] == C;
  }

  const ONLY_B_C: Engine := Engine({}, {}, {}, {}, Some(In({B_C})), map[])

  lemma SlotsAreApart()
    ensures var H := DiskStore.Fnv;
      SlotOf(H(X_A_B_C)) == 3634 && SlotOf(H(A_B_C)) == 896 && SlotOf(H(B_C)) == 2135
  {
    HashB_C();
    HashA_B_C();
    HashX_A_B_C();
    hide DiskStore.Fnv;
  }

  lemma NoRuleSetDecides(d: Name)
    ensures RuleSets(ONLY_B_C, d).None?
  {
  }

  lemma BothAreCovered()
    ensures Normalize(X_A_B_C) == X_A_B_C && Normalize(A_B_C) == A_B_C
    ensures Covered(ListedBy(ONLY_B_C.disk), X_A_B_C) && Covered(ListedBy(ONLY_B_C.disk), A_B_C)
  {
    assert SuffixAt(X_A_B_C, 3) && X_A_B_C[4..] == B_C && SuffixAt(A_B_C, 1) && A_B_C[2..] == B_C;
  }

  lemma FirstSpoilsSecond()
    ensures Spoils(DiskStore.Fnv, ONLY_B_C, X_A_B_C, A_B_C)
  {
    hide RuleSets, DiskStore.Fnv, SlotOf;
    NoRuleSetDecides(X_A_B_C);
    NoRuleSetDecides(A_B_C);
    SlotsAreApart();
    assert X_A_B_C[2..] == A_B_C && X_A_B_C[4..] == B_C;
    assert forall j :: 0 <= j < 3 && SuffixAt(X_A_B_C, j) ==> j == 1;
    var k: nat, m: nat := 1, 3;
    assert SuffixAt(X_A_B_C, k) && A_B_C == X_A_B_C[k + 1..];
    assert k < m && FirstListed(ONLY_B_C.disk.value, X_A_B_C, 0, m);
    assert Leaves(DiskStore.Fnv, X_A_B_C, k + 1, m, SlotOf(DiskStore.Fnv(A_B_C)));
  }

  /** With only "b.c" on disk, asking for "x.a.b.c" blocks it and spoils "a.b.c": asking for that
      next lets it through, although "b.c" covers it. */
  lemma NegativeMemoUnderblocks()
    ensures var (first, e1) := ShouldBlock(DiskStore.Fnv, true, ONLY_B_C, X_A_B_C);
      first && Rule(e1, A_B_C) && !ShouldBlock(DiskStore.Fnv, true, e1, A_B_C).0
  {
    hide ShouldBlock, RuleSets, DiskStore.Fnv, Spoils, Covered;
    NamesAreApart();
    BothAreCovered();
    FirstSpoilsSecond();
    NoRuleSetDecides(X_A_B_C);
    NoRuleSetDecides(A_B_C);
    QueryIsExact(DiskStore.Fnv, NAMES, true, ONLY_B_C, X_A_B_C);
    AskingKeepsRules(DiskStore.Fnv, true, ONLY_B_C, X_A_B_C, A_B_C);
    WrongIffSpoiled(DiskStore.Fnv, NAMES, ONLY_B_C, X_A_B_C, A_B_C);
  }
}
