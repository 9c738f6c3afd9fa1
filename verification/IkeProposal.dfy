/**
  IKE proposals: the key-exchange slots and what negotiating them can come to.  A negotiation picks one
  method in every slot (section 2.2 of RFC 9370).
 */
module IkeProposal {
  import opened Options

  // Absent is "none", which leaves an additional slot unused.
  datatype Method = Absent | MlKem(bits: nat) | Other(name: string)

  // One word of a proposal, and the slot it is for: 0 is the primary exchange, 1 to 7 the additional ones.
  // The method of a word that names no key exchange is None.
  datatype Mention = Mention(slot: nat, named: Option<Method>)

  // Every slot named, with its methods in order of first mention.
  type Slots = map<nat, seq<Method>>

  function MethodsOf(s: Slots, slot: nat): seq<Method> {
    if slot in s then s[slot] else []
  }

  function AddMention(s: Slots, m: Mention): Slots {
    if m.named.None? || m.named.value in MethodsOf(s, m.slot) then s
    else s[m.slot := MethodsOf(s, m.slot) + [m.named.value]]
  }

  function Fill(ms: seq<Mention>): Slots {
    if ms == [] then map[] else AddMention(Fill(ms[..|ms| - 1]), ms[|ms| - 1])
  }

  lemma {:induction false} FillGrows(ms: seq<Mention>, m: Mention)
    ensures Fill(ms + [m]) == AddMention(Fill(ms), m) && Fill([]) == map[]
  {
    hide AddMention;
    assert (ms + [m])[..|ms|] == ms;
  }

  // The methods mentioned for one slot, in order, repetitions left in.
  function Mentioned(ms: seq<Mention>, slot: nat): seq<Option<Method>> {
    if ms == [] then []
    else
      var n := |ms| - 1;
      Mentioned(ms[..n], slot) + if ms[n].slot == slot then [ms[n].named] else []
  }

  function FirstMentions(ms: seq<Option<Method>>): seq<Method> {
    if ms == [] then []
    else
      var n := |ms| - 1;
      var r := FirstMentions(ms[..n]);
      if ms[n].None? || ms[n].value in r then r else r + [ms[n].value]
  }

  /** A slot holds its methods once each, in order of first mention. */
  lemma {:induction false} FillIsFirstMentions(ms: seq<Mention>, slot: nat)
    ensures MethodsOf(Fill(ms), slot) == FirstMentions(Mentioned(ms, slot))
    decreases |ms|
  {
    if ms != [] {
      var n := |ms| - 1;
      FillIsFirstMentions(ms[..n], slot);
      var before := Mentioned(ms[..n], slot);
      assert (before + [ms[n].named])[..|before|] == before;
      assert before + [] == before;
    }
  }

  lemma {:induction false} FillNonempty(ms: seq<Mention>)
    ensures NoEmptySlot(Fill(ms))
    decreases |ms|
  {
    if ms != [] {
      FillNonempty(ms[..|ms| - 1]);
    }
  }

  // A slot holds exactly what is mentioned for it.
  lemma {:induction false} FillHolds(ms: seq<Mention>, slot: nat, m: Method)
    ensures m in MethodsOf(Fill(ms), slot) <==> Mention(slot, Some(m)) in ms
    decreases |ms|
  {
    if ms != [] {
      var n := |ms| - 1;
      FillHolds(ms[..n], slot, m);
      assert ms == ms[..n] + [ms[n]];
    }
  }

  // ---- Classification ----

  datatype Category = Hybrid | PurePqc | ClassicalOnly

  ghost predicate NoEmptySlot(s: Slots) {
    forall k | k in s :: s[k] != []
  }

  predicate Offers(ms: seq<Method>) {
    exists m :: m in ms && m.MlKem?
  }

  predicate OnlyMlKem(ms: seq<Method>) {
    forall m | m in ms :: m.MlKem?
  }

  // The first ML-KEM method, if any.
  function FirstMlKem(ms: seq<Method>): (r: Option<Method>)
    ensures r.Some? <==> Offers(ms)
    ensures r.Some? ==> r.value in ms && r.value.MlKem?
  {
    if ms == [] then None
    else if ms[0].MlKem? then Some(ms[0])
    else
      assert forall m | m in ms :: m == ms[0] || m in ms[1..];
      FirstMlKem(ms[1..])
  }

  predicate HasReal(ms: seq<Method>) {
    exists i :: 0 <= i < |ms| && ms[i] != Absent
  }

  function FirstReal(ms: seq<Method>): (r: Option<Method>)
    ensures r.Some? <==> HasReal(ms)
    ensures r.Some? ==> r.value in ms && r.value != Absent
  {
    if ms == [] then None
    else if ms[0] != Absent then Some(ms[0])
    else
      assert HasReal(ms[1..]) ==> HasReal(ms) by {
        if i :| 0 <= i < |ms[1..]| && ms[1..][i] != Absent {
          assert ms[i + 1] != Absent;
        }
      }
      assert forall i | 0 < i < |ms| :: ms[1..][i - 1] == ms[i];
      FirstReal(ms[1..])
  }

  // A negotiation: one of the offered methods in every slot.
  ghost predicate IsChoice(s: Slots, c: map<nat, Method>) {
    c.Keys == s.Keys && forall k | k in s :: c[k] in s[k]
  }

  ghost predicate HasMlKem(c: map<nat, Method>) {
    exists k :: k in c && c[k].MlKem?
  }

  // A classical exchange takes place; "none" is one only in the primary slot, where it has no meaning.
  ghost predicate HasClassical(c: map<nat, Method>) {
    exists k :: k in c && !c[k].MlKem? && (k == 0 || c[k] != Absent)
  }

  // The negotiation the scanner assumes: ML-KEM wherever it is offered, and no slot left unused needlessly.
  ghost predicate IsBest(s: Slots, c: map<nat, Method>) {
    && IsChoice(s, c)
    && forall k | k in s :: && (Offers(s[k]) ==> c[k].MlKem?)
                            && (k != 0 && c[k] == Absent ==> forall m | m in s[k] :: m == Absent)
  }

  function BestOf(slot: nat, ms: seq<Method>): Method
    requires ms != []
  {
    if Offers(ms) then FirstMlKem(ms).value
    else if slot == 0 || !HasReal(ms) then ms[0] else FirstReal(ms).value
  }

  function WorstOf(ms: seq<Method>): (r: Method)
    requires ms != []
    ensures r in ms && (r.MlKem? ==> OnlyMlKem(ms))
  {
    if ms[0].MlKem? && |ms| > 1 then
      assert forall m | m in ms :: m == ms[0] || m in ms[1..];
      WorstOf(ms[1..])
    else
      assert |ms| == 1 ==> forall m | m in ms :: m == ms[0];
      ms[0]
  }

  lemma {:induction false} BestExists(s: Slots) returns (c: map<nat, Method>)
    requires NoEmptySlot(s)
    ensures IsBest(s, c)
  {
    c := map k | k in s :: BestOf(k, s[k]);
  }

  // Every negotiation uses ML-KEM exactly when some slot offers nothing else.
  lemma {:induction false} MandatoryMeansSlot(s: Slots)
    requires NoEmptySlot(s)
    ensures (exists k :: k in s && OnlyMlKem(s[k])) <==> forall c | IsChoice(s, c) :: HasMlKem(c)
  {
    if k :| k in s && OnlyMlKem(s[k]) {
      forall c | IsChoice(s, c) ensures HasMlKem(c) {
        assert c[k] in s[k];
      }
    } else {
      var c := map k | k in s :: WorstOf(s[k]);
      assert IsChoice(s, c) && !HasMlKem(c);
    }
  }

  lemma {:induction false} PossibleMeansSlot(s: Slots)
    requires NoEmptySlot(s)
    ensures (exists k :: k in s && Offers(s[k])) <==> exists c :: IsChoice(s, c) && HasMlKem(c)
  {
    var best := BestExists(s);
    if k :| k in s && Offers(s[k]) {
      assert best[k].MlKem?;
      assert IsChoice(s, best) && HasMlKem(best);
    }
    if c: map<nat, Method> :| IsChoice(s, c) && HasMlKem(c) {
      var k :| k in c.Keys && c[k].MlKem?;
      assert c[k] in s[k];
    }
  }

  // Whatever best negotiation is taken, it has the same exchanges.
  lemma {:induction false} BestIsSlots(s: Slots, c: map<nat, Method>)
    requires NoEmptySlot(s) && IsBest(s, c)
    ensures HasMlKem(c) <==> exists k :: k in s && Offers(s[k])
    ensures HasClassical(c) <==> exists k :: k in s && !Offers(s[k]) && (k == 0 || HasReal(s[k]))
  {
    forall k | k in s
      ensures c[k].MlKem? <==> Offers(s[k])
      ensures k != 0 && !Offers(s[k]) ==> (c[k] != Absent <==> HasReal(s[k]))
    {
      assert c[k] in s[k];
      var i :| 0 <= i < |s[k]| && s[k][i] == c[k];
      if c[k] != Absent {
        assert s[k][i] != Absent;
      } else if j :| 0 <= j < |s[k]| && s[k][j] != Absent {
        assert s[k][j] in s[k];
      }
    }
    hide Offers, HasReal;
    if HasClassical(c) {
      var k :| k in c && !c[k].MlKem? && (k == 0 || c[k] != Absent);
      assert k in s && !Offers(s[k]) && (k == 0 || HasReal(s[k]));
    }
  }

  /** What the classifier takes from one slot. */
  method BestIn(slot: nat, ms: seq<Method>) returns (best: Option<Method>)
    requires ms != []
    ensures best.Some? <==> Offers(ms) || slot == 0 || HasReal(ms)
    ensures best.Some? ==> best.value in ms && (best.value.MlKem? <==> Offers(ms))
  {
    var pqc, used := FirstMlKem(ms), FirstReal(ms);
    best := if pqc.Some? then pqc else if slot == 0 then Some(ms[0]) else used;
  }

  // What the slots `ks` offer.
  ghost predicate AnyOffers(s: Slots, ks: set<nat>) {
    exists k :: k in ks && k in s && Offers(s[k])
  }

  ghost predicate AnyClassical(s: Slots, ks: set<nat>) {
    exists k :: k in ks && k in s && !Offers(s[k]) && (k == 0 || HasReal(s[k]))
  }

  ghost predicate AnyOnly(s: Slots, ks: set<nat>) {
    exists k :: k in ks && k in s && OnlyMlKem(s[k])
  }

  lemma {:induction false} OneMoreSlot(s: Slots, ks: set<nat>, k: nat)
    requires k in s
    ensures AnyOffers(s, ks + {k}) <==> AnyOffers(s, ks) || Offers(s[k])
    ensures AnyClassical(s, ks + {k}) <==> AnyClassical(s, ks) || (!Offers(s[k]) && (k == 0 || HasReal(s[k])))
    ensures AnyOnly(s, ks + {k}) <==> AnyOnly(s, ks) || OnlyMlKem(s[k])
    ensures !AnyOffers(s, {}) && !AnyClassical(s, {}) && !AnyOnly(s, {})
  {
    hide Offers, HasReal, OnlyMlKem;
    assert forall j :: j in ks + {k} <==> j in ks || j == k;
  }

  // The quantifiers over negotiations, in terms of the slots.
  lemma {:induction false} SlotsDecide(s: Slots)
    requires NoEmptySlot(s)
    ensures (s != map[] && forall c | IsChoice(s, c) :: HasMlKem(c)) <==> AnyOnly(s, s.Keys)
    ensures (exists c :: IsChoice(s, c) && HasMlKem(c)) <==> AnyOffers(s, s.Keys)
    ensures forall c | IsBest(s, c) ::
              (HasMlKem(c) <==> AnyOffers(s, s.Keys)) && (HasClassical(c) <==> AnyClassical(s, s.Keys))
  {
    MandatoryMeansSlot(s);
    PossibleMeansSlot(s);
    hide IsChoice, IsBest, HasMlKem, HasClassical, HasReal, Offers, OnlyMlKem;
    forall c | IsBest(s, c)
      ensures (HasMlKem(c) <==> AnyOffers(s, s.Keys)) && (HasClassical(c) <==> AnyClassical(s, s.Keys))
    {
      BestIsSlots(s, c);
    }
  }

  /** The classifier's loops.  `mandatory` is the quantifier it claims to be: every negotiation uses ML-KEM.
      The category says whether some negotiation uses it, and whether the best one uses anything else. */
  method Classify(s: Slots) returns (category: Option<Category>, mandatory: bool)
    requires NoEmptySlot(s)
    ensures category.None? <==> s == map[]
    ensures mandatory <==> s != map[] && forall c | IsChoice(s, c) :: HasMlKem(c)
    ensures category == Some(Hybrid) || category == Some(PurePqc) <==> exists c :: IsChoice(s, c) && HasMlKem(c)
    ensures s != map[] ==> forall c | IsBest(s, c) ::
              category == Some(if !HasMlKem(c) then ClassicalOnly else if HasClassical(c) then Hybrid else PurePqc)
  {
    SlotsDecide(s);
    hide IsChoice, IsBest, HasMlKem, HasClassical, HasReal, Offers, OnlyMlKem, AnyOffers, AnyClassical, AnyOnly;
    if s == map[] {
      NothingOffered(s);
      return None, false;
    }
    category, mandatory := ClassifySlots(s);
  }

  lemma {:induction false} NothingOffered(s: Slots)
    requires s == map[]
    ensures !AnyOffers(s, s.Keys) && !AnyOnly(s, s.Keys)
  {
  }

  method ClassifySlots(s: Slots) returns (category: Option<Category>, mandatory: bool)
    requires NoEmptySlot(s) && s != map[]
    ensures mandatory <==> AnyOnly(s, s.Keys)
    ensures category == Some(if !AnyOffers(s, s.Keys) then ClassicalOnly
                             else if AnyClassical(s, s.Keys) then Hybrid else PurePqc)
  {
    hide HasReal, Offers, OnlyMlKem, AnyOffers, AnyClassical, AnyOnly;
    var chosen: seq<Method> := [];
    NothingChosen();
    mandatory := false;
    var rest := s.Keys;
    ghost var first :| first in s;
    OneMoreSlot(s, {}, first);
    assert s.Keys - rest == {};
    while rest != {}
      invariant rest <= s.Keys
      invariant Offers(chosen) <==> AnyOffers(s, s.Keys - rest)
      invariant !OnlyMlKem(chosen) <==> AnyClassical(s, s.Keys - rest)
      invariant mandatory <==> AnyOnly(s, s.Keys - rest)
      decreases rest
    {
      var k :| k in rest;
      OneMoreSlot(s, s.Keys - rest, k);
      assert s.Keys - (rest - {k}) == s.Keys - rest + {k};
      var best := BestIn(k, s[k]);
      if best.Some? {
        OneMoreChosen(chosen, best.value);
        chosen := chosen + [best.value];
      }
      if OnlyMlKem(s[k]) {
        mandatory := true;
      }
      rest := rest - {k};
    }
    assert s.Keys - rest == s.Keys;
    category := Some(if Offers(chosen) then (if OnlyMlKem(chosen) then PurePqc else Hybrid) else ClassicalOnly);
  }

  lemma {:induction false} NothingChosen()
    ensures !Offers([]) && OnlyMlKem([])
  {
  }

  lemma {:induction false} OneMoreChosen(ms: seq<Method>, m: Method)
    ensures Offers(ms + [m]) <==> Offers(ms) || m.MlKem?
    ensures OnlyMlKem(ms + [m]) <==> OnlyMlKem(ms) && m.MlKem?
  {
    assert m in ms + [m] && forall x | x in ms :: x in ms + [m];
  }
}
