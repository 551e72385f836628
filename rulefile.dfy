/**
 * The vectorizer's learned rules: a map from a 24-bit neighbourhood mask to
 * the direction to walk from a pixel with that neighbourhood. The rule file
 * holds one 32-bit entry per rule, the mask in bits 0-23 and the direction
 * in bits 24-27; it is written in ascending mask order, as an ordered map
 * iterates, and read back entry by entry, a later entry for the same mask
 * overriding an earlier one.
 */
module RuleFile {
  import opened Wrappers

  /** A direction code: east, south-east, ..., north-east are 0 .. 7, 8 is "none"; a file can hold up to 15. */
  type Dir = d: int | 0 <= d < 16

  const DIR_NONE: Dir := 8

  /** One more than the largest 24-bit mask: an entry's mask is its value modulo this. */
  const MASK_LIMIT: int := 0x100_0000

  /** One more than the largest entry. */
  const ENTRY_LIMIT: int := 0x1_0000_0000

  /** A 32-bit file entry. */
  type Entry = e: int | 0 <= e < ENTRY_LIMIT

  /** A 24-bit neighbourhood mask. */
  type Mask = m: int | 0 <= m < MASK_LIMIT

  /** The rule table. */
  type Rules = map<Mask, Dir>

  /**
   * The entry written for one rule: the mask or-ed with the direction
   * shifted into bits 24-27, which for a 24-bit mask is a sum. The mask and
   * direction come back out unchanged, and the top four bits are clear.
   */
  function Pack(mask: Mask, dir: Dir): (e: Entry)
    ensures Unpack(e) == (mask, dir)
    ensures e < 0x1000_0000
  {
    mask + dir * MASK_LIMIT
  }

  /**
   * The mask and direction read from one entry: the low 24 bits, and bits
   * 24-27 shifted down; the top four bits are ignored.
   */
  function Unpack(e: Entry): (r: (Mask, Dir))
    ensures e < 0x1000_0000 ==> e == r.0 + r.1 * MASK_LIMIT
  {
    var q := e / MASK_LIMIT;
    assert e == q * MASK_LIMIT + e % MASK_LIMIT;
    (e % MASK_LIMIT, q % 16)
  }

  /** Packing what was unpacked gives the entry back without its top four bits. */
  lemma RepackDropsTop(e: Entry)
    ensures Pack(Unpack(e).0, Unpack(e).1) == e % 0x1000_0000
  {
    var q := e / MASK_LIMIT;
    assert e == q * MASK_LIMIT + e % MASK_LIMIT;
    assert q == (q / 16) * 16 + q % 16;
    assert e == (q / 16) * 0x1000_0000 + (q % 16) * MASK_LIMIT + e % MASK_LIMIT;
  }

  /** The table read from a file's entries, starting from an empty table: at most one rule per entry. */
  function Loaded(es: seq<Entry>): (r: Rules)
    ensures |r| <= |es|
    decreases |es|
  {
    if es == [] then map[]
    else
      var (m, d) := Unpack(es[|es| - 1]);
      Loaded(es[..|es| - 1])[m := d]
  }

  /**
   * A mask has a rule exactly when some entry carries it, and its direction
   * is that of the last such entry.
   */
  lemma {:induction false} LoadedLast(es: seq<Entry>, m: Mask)
    ensures m in Loaded(es) <==> exists i :: 0 <= i < |es| && Unpack(es[i]).0 == m
    ensures forall i :: 0 <= i < |es| && Unpack(es[i]).0 == m && (forall j :: i < j < |es| ==> Unpack(es[j]).0 != m)
                        ==> m in Loaded(es) && Loaded(es)[m] == Unpack(es[i]).1
    decreases |es|
  {
    if es != [] {
      var init := es[..|es| - 1];
      LoadedLast(init, m);
      if Unpack(es[|es| - 1]).0 != m {
        forall i | 0 <= i < |init| && Unpack(init[i]).0 == m
          ensures Unpack(es[i]).0 == m
        {
          assert init[i] == es[i];
        }
        if m in Loaded(es) {
          var i :| 0 <= i < |init| && Unpack(init[i]).0 == m;
          assert es[i] == init[i];
        }
      }
    }
  }

  /**
   * Reads a rule file: a missing file leaves the table as it was;
   * otherwise the table is cleared and every entry is stored in turn.
   */
  method LoadRules(file: Option<seq<Entry>>, rules: Rules) returns (r: Rules)
    ensures file.None? ==> r == rules
    ensures file.Some? ==> r == Loaded(file.value)
  {
    if file.None? {
      return rules;
    }
    var es := file.value;
    r := map[];
    var i := 0;
    while i < |es|
      invariant 0 <= i <= |es|
      invariant r == Loaded(es[..i])
    {
      assert es[..i + 1][..i] == es[..i];
      var (m, d) := Unpack(es[i]);
      r := r[m := d];
      i := i + 1;
    }
    assert es[..i] == es;
  }

  /** `m` is the least mask of `s`. */
  predicate IsLeast(m: Mask, s: set<Mask>) {
    m in s && forall k :: k in s ==> m <= k
  }

  /** Every finite non-empty set of masks has a least element. */
  lemma {:induction false} LeastExists(s: set<Mask>)
    requires s != {}
    ensures exists m :: IsLeast(m, s)
    decreases |s|
  {
    var x :| x in s;
    var rest := s - {x};
    if rest == {} {
      var least := x;
      forall k | k in s
        ensures x <= k
      {
        assert k !in rest;
      }
      assert IsLeast(least, s);
    } else {
      LeastExists(rest);
      var m :| IsLeast(m, rest);
      var least := if x < m then x else m;
      forall k | k in s
        ensures least <= k
      {
        if k != x {
          assert k in rest;
        }
      }
      assert IsLeast(least, s);
    }
  }

  /** The least mask of a non-empty set. */
  function Least(s: set<Mask>): (m: Mask)
    requires s != {}
    ensures IsLeast(m, s)
  {
    LeastExists(s);
    var m :| IsLeast(m, s);
    m
  }

  /** Strictly ascending masks. */
  predicate StrictlyAscending(r: seq<Mask>) {
    forall i, j :: 0 <= i < j < |r| ==> r[i] < r[j]
  }

  /** The masks of a set in ascending order, as an ordered map visits its keys. */
  function Ascending(s: set<Mask>): (r: seq<Mask>)
    ensures |r| == |s|
    ensures forall k :: k in s <==> k in r
    decreases |s|
  {
    if s == {} then []
    else
      var m := Least(s);
      [m] + Ascending(s - {m})
  }

  /** The masks come out strictly ascending, so each appears once. */
  lemma {:induction false} AscendingSorted(s: set<Mask>)
    ensures StrictlyAscending(Ascending(s))
    decreases |s|
  {
    if s != {} {
      var m := Least(s);
      AscendingSorted(s - {m});
      var rest := Ascending(s - {m});
      forall j | 0 <= j < |rest|
        ensures m < rest[j]
      {
        assert rest[j] in s - {m};
      }
      AscendingCons(m, rest);
    }
  }

  /** A mask below every mask of an ascending list can head it. */
  lemma AscendingCons(m: Mask, rest: seq<Mask>)
    requires StrictlyAscending(rest) && forall j :: 0 <= j < |rest| ==> m < rest[j]
    ensures StrictlyAscending([m] + rest)
  {
    var r := [m] + rest;
    forall i, j | 0 <= i < j < |r|
      ensures r[i] < r[j]
    {
      assert r[j] == rest[j - 1];
      if i > 0 {
        assert r[i] == rest[i - 1];
      }
    }
  }

  /** No mask is visited twice. */
  lemma AscendingDistinct(s: set<Mask>)
    ensures forall i, j :: 0 <= i < j < |Ascending(s)| ==> Ascending(s)[i] != Ascending(s)[j]
  {
    AscendingSorted(s);
  }

  /** The entries for the given masks, in their order. */
  function Entries(rules: Rules, ks: seq<Mask>): (es: seq<Entry>)
    requires forall i :: 0 <= i < |ks| ==> ks[i] in rules
    ensures |es| == |ks|
    ensures forall i :: 0 <= i < |ks| ==> es[i] == Pack(ks[i], rules[ks[i]])
  {
    seq(|ks|, i requires 0 <= i < |ks| => Pack(ks[i], rules[ks[i]]))
  }

  /** The entries written for a table: one per rule, in ascending mask order. */
  function Saved(rules: Rules): (es: seq<Entry>)
    ensures |es| == |rules|
  {
    Entries(rules, Ascending(rules.Keys))
  }

  /** Loading the entries of distinct masks gives a rule for exactly those masks, each with its direction. */
  lemma {:induction false} LoadEntries(rules: Rules, ks: seq<Mask>)
    requires forall i :: 0 <= i < |ks| ==> ks[i] in rules
    requires forall i, j :: 0 <= i < j < |ks| ==> ks[i] != ks[j]
    ensures forall k :: k in Loaded(Entries(rules, ks)) <==> k in ks
    ensures forall i :: 0 <= i < |ks| ==> Loaded(Entries(rules, ks))[ks[i]] == rules[ks[i]]
    decreases |ks|
  {
    if ks != [] {
      var es := Entries(rules, ks);
      var n := |ks| - 1;
      var init := ks[..n];
      LoadEntries(rules, init);
      assert es[..n] == Entries(rules, init);
      assert Unpack(es[n]) == (ks[n], rules[ks[n]]);
      LoadOneMore(rules, ks, init, Loaded(Entries(rules, init)), Loaded(es));
    }
  }

  /** One more distinct mask, loaded after the others, adds its rule and keeps theirs. */
  lemma LoadOneMore(rules: Rules, ks: seq<Mask>, init: seq<Mask>, before: Rules, after: Rules)
    requires |ks| > 0 && init == ks[..|ks| - 1] && forall i :: 0 <= i < |ks| ==> ks[i] in rules
    requires forall k :: k in before <==> k in init
    requires forall i :: 0 <= i < |init| ==> before[init[i]] == rules[init[i]]
    requires after == before[ks[|ks| - 1] := rules[ks[|ks| - 1]]]
    ensures forall k :: k in after <==> k in ks
    ensures forall i :: 0 <= i < |ks| ==> after[ks[i]] == rules[ks[i]]
  {
    var n := |ks| - 1;
    forall k
      ensures k in ks <==> k in init || k == ks[n]
    {
      if k in ks {
        var i :| 0 <= i < |ks| && ks[i] == k;
        if i < n {
          assert init[i] == k;
        }
      }
    }
    forall i | 0 <= i < n
      ensures after[ks[i]] == rules[ks[i]]
    {
      assert init[i] == ks[i];
    }
  }

  /** Reading back the file written for a table gives the same table. */
  lemma SaveLoad(rules: Rules)
    ensures Loaded(Saved(rules)) == rules
  {
    var ks := Ascending(rules.Keys);
    AscendingDistinct(rules.Keys);
    LoadEntries(rules, ks);
    SameRules(Loaded(Entries(rules, ks)), rules, ks);
  }

  /** Two tables that agree on a list of masks holding exactly their keys are equal. */
  lemma SameRules(got: Rules, rules: Rules, ks: seq<Mask>)
    requires forall k :: k in rules <==> k in ks
    requires forall k :: k in got <==> k in ks
    requires forall i :: 0 <= i < |ks| ==> got[ks[i]] == rules[ks[i]]
    ensures got == rules
  {
    forall k | k in rules
      ensures got[k] == rules[k]
    {
      var i :| 0 <= i < |ks| && ks[i] == k;
    }
  }

  /** Writes the table: one packed entry per rule, visiting the masks in ascending order. */
  method SaveRules(rules: Rules) returns (es: seq<Entry>)
    ensures es == Saved(rules)
  {
    var ks := Ascending(rules.Keys);
    ghost var want := Saved(rules);
    es := [];
    var i := 0;
    while i < |ks|
      invariant 0 <= i <= |ks|
      invariant es == want[..i]
    {
      assert ks[i] in rules;
      assert want[..i + 1] == want[..i] + [want[i]];
      es := es + [Pack(ks[i], rules[ks[i]])];
      i := i + 1;
    }
  }
}
