/**
 Digits written with the characters of an alphabet.
 */
module Alphabet {
  import opened Wrappers
  import opened Positional

  ghost predicate Distinct(cs: string) {
    forall j, k :: 0 <= j < k < |cs| ==> cs[j] != cs[k]
  }

  /** The position of `c` in the alphabet. */
  function IndexOf(cs: string, c: char): (p: Option<nat>)
    ensures p.Some? ==> p.value < |cs| && cs[p.value] == c
    ensures p.None? ==> c !in cs
  {
    if cs == [] then None
    else if cs[0] == c then Some(0)
    else match IndexOf(cs[1..], c)
      case None => None
      case Some(p) => Some(p + 1)
  }

  lemma {:induction false} IndexOfDistinct(cs: string, i: nat)
    requires i < |cs| && Distinct(cs)
    ensures IndexOf(cs, cs[i]) == Some(i)
  {
    if i == 0 {
    } else {
      IndexOfDistinct(cs[1..], i - 1);
    }
  }

  function Spell(cs: string, ds: seq<nat>): (s: string)
    requires Below(ds, |cs|)
    ensures |s| == |ds|
  {
    if ds == [] then [] else Spell(cs, ds[..|ds| - 1]) + [cs[ds[|ds| - 1]]]
  }

  /** The digits of a text, unless one of its characters is not in the alphabet. */
  function Lookup(cs: string, s: string): (r: Option<seq<nat>>)
    ensures r.Some? ==> |r.value| == |s| && Below(r.value, |cs|)
  {
    if s == [] then Some([])
    else
      var n := |s| - 1;
      match (Lookup(cs, s[..n]), IndexOf(cs, s[n]))
      case (Some(ds), Some(d)) => Some(ds + [d])
      case _ => None
  }

  lemma {:induction false} LookupSpell(cs: string, ds: seq<nat>)
    requires Below(ds, |cs|) && Distinct(cs)
    ensures Lookup(cs, Spell(cs, ds)) == Some(ds)
  {
    if ds == [] {
    } else {
      var n := |ds| - 1;
      LookupSpell(cs, ds[..n]);
      IndexOfDistinct(cs, ds[n]);
      assert Spell(cs, ds)[..n] == Spell(cs, ds[..n]);
      assert ds == ds[..n] + [ds[n]];
    }
  }

  lemma {:induction false} SpellLookup(cs: string, s: string)
    requires Lookup(cs, s).Some?
    ensures Spell(cs, Lookup(cs, s).value) == s
  {
    if s == [] {
    } else {
      var n := |s| - 1;
      var ds := Lookup(cs, s).value;
      SpellLookup(cs, s[..n]);
      assert ds[..n] == Lookup(cs, s[..n]).value;
      assert s == s[..n] + [s[n]];
    }
  }

  lemma {:induction false} SpellAt(cs: string, ds: seq<nat>, i: nat)
    requires Below(ds, |cs|) && i < |ds|
    ensures Spell(cs, ds)[i] == cs[ds[i]]
  {
    if i == |ds| - 1 {
    } else {
      SpellAt(cs, ds[..|ds| - 1], i);
    }
  }

  lemma {:induction false} LookupForeign(cs: string, s: string, i: nat)
    requires i < |s| && s[i] !in cs
    ensures Lookup(cs, s).None?
  {
    if i == |s| - 1 {
    } else {
      LookupForeign(cs, s[..|s| - 1], i);
    }
  }

  /** A text has digits exactly when all of its characters are in the alphabet. */
  lemma {:induction false} LookupSome(cs: string, s: string)
    ensures Lookup(cs, s).Some? <==> forall i :: 0 <= i < |s| ==> s[i] in cs
  {
    if s == [] {
    } else {
      LookupSome(cs, s[..|s| - 1]);
    }
  }
}
