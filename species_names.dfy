/** Species names of boundary and search atoms, and the array assembly of
    `Batoms.get_arrays` (old_batoms.py:1408-1445).

    draw_boundary_atoms names the padded atoms `'%s_%s' % (sp, suffix)` with
    the suffix `boundary` or `search` (old_batoms.py:1154); get_arrays maps
    such a name back to its species by cutting it at the first `_boundary`
    and then at the first `_search` (old_batoms.py:1428-1429). */
module SpeciesNames {
  import opened Wrappers
  import opened Geometry

  predicate OccursAt(s: string, sep: string, i: nat)
  {
    i + |sep| <= |s| && s[i..i + |sep|] == sep
  }

  /** `sep in s` */
  predicate Occurs(s: string, sep: string)
  {
    exists i :: 0 <= i <= |s| && OccursAt(s, sep, i)
  }

  /** The first position at or after `from` where `sep` occurs in `s`. */
  function FindFrom(s: string, sep: string, from: nat): (r: Option<nat>)
    requires |sep| > 0
    ensures r.Some? ==> from <= r.value && OccursAt(s, sep, r.value)
    ensures r.Some? ==> forall i :: from <= i < r.value ==> !OccursAt(s, sep, i)
    ensures r.None? ==> forall i :: from <= i ==> !OccursAt(s, sep, i)
    decreases |s| - from
  {
    if from + |sep| > |s| then None
    else if s[from..from + |sep|] == sep then Some(from)
    else FindFrom(s, sep, from + 1)
  }

  /** `s.split(sep)[0]`: the text before the first occurrence of `sep`, or
      all of `s` when it does not occur. */
  function SplitHead(s: string, sep: string): (r: string)
    requires |sep| > 0
    ensures Occurs(s, sep) ==> OccursAt(s, sep, |r|) && forall i :: 0 <= i < |r| ==> !OccursAt(s, sep, i)
    ensures !Occurs(s, sep) ==> r == s
    ensures r <= s
  {
    match FindFrom(s, sep, 0)
    case Some(i) => s[..i]
    case None => s
  }

  /** A head cut at the first `sep` holds no `sep` itself. */
  lemma HeadHoldsNoSep(s: string, sep: string)
    requires |sep| > 0
    ensures !Occurs(SplitHead(s, sep), sep)
  {
    var r := SplitHead(s, sep);
    forall i | 0 <= i <= |r|
      ensures !OccursAt(r, sep, i)
    {
      if i + |sep| <= |r| {
        assert r[i..i + |sep|] == s[i..i + |sep|];
        assert OccursAt(r, sep, i) == OccursAt(s, sep, i) && i <= |s|;
      }
    }
  }

  /** An occurrence in a prefix is an occurrence in the whole string. */
  lemma OccursInPrefix(p: string, s: string, sep: string)
    requires p <= s
    ensures forall i: nat :: OccursAt(p, sep, i) ==> OccursAt(s, sep, i)
  {
  }

  /** The species a (possibly suffixed) batom name stands for: the name cut
      at its first `_boundary`, then at the first `_search` of what is left.
      It is a prefix of the name holding neither suffix, the cut falls where
      a suffix starts, and a name with neither suffix is its own species. */
  function BaseSpecies(name: string): (r: string)
    ensures r <= name
    ensures !Occurs(r, "_boundary") && !Occurs(r, "_search")
    ensures Occurs(name, "_boundary") || Occurs(name, "_search") ==>
              OccursAt(name, "_boundary", |r|) || OccursAt(name, "_search", |r|)
    ensures !Occurs(name, "_boundary") && !Occurs(name, "_search") ==> r == name
  {
    var a := if Occurs(name, "_boundary") then SplitHead(name, "_boundary") else name;
    var r := if Occurs(a, "_search") then SplitHead(a, "_search") else a;
    HeadHoldsNoSep(name, "_boundary");
    HeadHoldsNoSep(a, "_search");
    OccursInPrefix(r, a, "_boundary");
    OccursInPrefix(a, name, "_search");
    r
  }

  /** `_boundary` and `_search` have their only underscore in front. */
  predicate LeadingUnderscoreOnly(sep: string)
  {
    |sep| > 0 && sep[0] == '_' && forall k :: 1 <= k < |sep| ==> sep[k] != '_'
  }

  /** An occurrence of such a separator in `sp + t`, where `t` starts with an
      underscore, lies wholly inside `sp` or starts inside `t`. */
  lemma NoStraddle(sp: string, t: string, sep: string, i: nat)
    requires LeadingUnderscoreOnly(sep) && |t| > 0 && t[0] == '_'
    requires OccursAt(sp + t, sep, i)
    ensures i + |sep| <= |sp| || |sp| <= i
  {
    if i < |sp| < i + |sep| {
      CharAtJoin(sp, t, sep, i);
      assert false;
    }
  }

  /** An occurrence that covers the join of `sp` and `t` matches `t[0]`
      with a character of `sep` after its first. */
  lemma CharAtJoin(sp: string, t: string, sep: string, i: nat)
    requires |t| > 0 && OccursAt(sp + t, sep, i) && i < |sp| < i + |sep|
    ensures 1 <= |sp| - i < |sep| && sep[|sp| - i] == t[0]
  {
    assert (sp + t)[i..i + |sep|][|sp| - i] == (sp + t)[|sp|];
  }

  /** Cutting `sp + sep` at its first `sep` gives `sp` when `sp` holds no
      `sep` of its own. */
  lemma HeadBeforeFirst(sp: string, sep: string)
    requires LeadingUnderscoreOnly(sep) && !Occurs(sp, sep)
    ensures SplitHead(sp + sep, sep) == sp
  {
    var s := sp + sep;
    assert OccursAt(s, sep, |sp|);
    var r := SplitHead(s, sep);
    if |r| < |sp| {
      NoStraddle(sp, sep, sep, |r|);
      assert s[|r|..|r| + |sep|] == sp[|r|..|r| + |sep|];
      assert OccursAt(sp, sep, |r|);
    }
  }

  /** The suffixed name of a boundary or search atom maps back to its
      species, for every species whose own name contains neither
      `_boundary` nor `_search`. */
  lemma SuffixRoundTrip(sp: string, suffix: string)
    requires suffix == "boundary" || suffix == "search"
    requires !Occurs(sp, "_boundary") && !Occurs(sp, "_search")
    ensures BaseSpecies(sp + "_" + suffix) == sp
  {
    var name := sp + "_" + suffix;
    assert LeadingUnderscoreOnly("_boundary") && LeadingUnderscoreOnly("_search");
    if suffix == "boundary" {
      assert name == sp + "_boundary";
      assert OccursAt(name, "_boundary", |sp|);
      HeadBeforeFirst(sp, "_boundary");
    } else {
      assert name == sp + "_search";
      if Occurs(name, "_boundary") {
        var i :| 0 <= i <= |name| && OccursAt(name, "_boundary", i);
        NoStraddle(sp, "_search", "_boundary", i);
        if i + 9 <= |sp| {
          assert name[i..i + 9] == sp[i..i + 9];
          assert OccursAt(sp, "_boundary", i);
        }
        assert false;
      }
      assert OccursAt(name, "_search", |sp|);
      HeadBeforeFirst(sp, "_search");
    }
  }

  /** A name without either suffix is its own species. */
  lemma PlainNameUnchanged(name: string)
    requires !Occurs(name, "_boundary") && !Occurs(name, "_search")
    ensures BaseSpecies(name) == name
  {
  }
}
