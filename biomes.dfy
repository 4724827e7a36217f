/** `assign_biomes` of `map_maker/biomes.py`: a priority classification of
    the cells written as a sequence of masked assignments, where a later
    write overrides an earlier one. */
module Biomes {
  import opened NumPy

  /** `biome_names`, in id order. */
  const BiomeNames: seq<string> :=
    ["temperate_forest", "tropical_forest", "desert", "swamp", "beach", "water", "ice"]

  // The ids the masked writes use: each name's position in `BiomeNames`,
  // which is its `biome_map` entry by `BiomeIdsInvertBiomeMap`.
  const TemperateForest: int := 0
  const TropicalForest: int := 1
  const Desert: int := 2
  const Swamp: int := 3
  const Beach: int := 4
  const Water: int := 5
  const Ice: int := 6
  /** The fill value of the `biomes` array before any write. */
  const Unassigned: int := -1

  predicate Distinct<T(==)>(s: seq<T>) {
    forall i, j :: 0 <= i < j < |s| ==> s[i] != s[j]
  }

  predicate Injective<K, V(==)>(m: map<K, V>) {
    forall a, b :: a in m && b in m && a != b ==> m[a] != m[b]
  }

  /** `{n: i for i, n in enumerate(names)}`: a later occurrence of a name
      overwrites an earlier one. */
  function Enumerate<T(==)>(names: seq<T>): (m: map<T, int>)
    ensures m.Keys == set n | n in names
  {
    if names == [] then map[]
    else
      var last := |names| - 1;
      Enumerate(names[..last])[names[last] := last]
  }

  /** Without repeated names each name maps to its own position, so the
      map is injective. */
  lemma {:induction false} EnumerateDistinct<T>(names: seq<T>)
    requires Distinct(names)
    ensures forall i :: 0 <= i < |names| ==> Enumerate(names)[names[i]] == i
    ensures Injective(Enumerate(names))
  {
    if names != [] {
      var last := |names| - 1;
      EnumerateDistinct(names[..last]);
      var m := Enumerate(names);
      forall i | 0 <= i < |names| ensures m[names[i]] == i {
        if i < last {
          assert names[..last][i] == names[i];
        }
      }
      forall a, b | a in m && b in m && a != b ensures m[a] != m[b] {
        var ia :| 0 <= ia < |names| && names[ia] == a;
        var ib :| 0 <= ib < |names| && names[ib] == b;
      }
    }
  }

  /** `{v: k for k, v in m.items()}` of an injective map. */
  function Invert<K, V(==)>(m: map<K, V>): (inv: map<V, K>)
    requires Injective(m)
    ensures inv.Keys == m.Values
    ensures forall k :: k in m ==> inv[m[k]] == k
  {
    var inv := map k | k in m :: m[k] := k;
    assert forall k :: k in m ==> m[k] in inv && inv[m[k]] == k;
    inv
  }

  /** `biome_map` */
  function BiomeMap(): (m: map<string, int>)
    ensures m.Keys == set n | n in BiomeNames
  {
    Enumerate(BiomeNames)
  }

  /** `biome_ids`: each id names the biome at that position of
      `biome_names`. */
  function BiomeIds(): (ids: map<int, string>)
    ensures forall i :: i in ids <==> 0 <= i < |BiomeNames|
    ensures forall i :: 0 <= i < |BiomeNames| ==> ids[i] == BiomeNames[i]
  {
    InvertEnumerate(BiomeNames);
    Invert(BiomeMap())
  }

  /** Enumerating distinct names and inverting the result gives back the
      names by position: the two maps are exact inverses, read either way
      round. */
  lemma InvertEnumerate<T>(names: seq<T>)
    requires Distinct(names)
    ensures Injective(Enumerate(names))
    ensures forall i :: 0 <= i < |names| ==> Enumerate(names)[names[i]] == i
    ensures forall i :: i in Invert(Enumerate(names)) <==> 0 <= i < |names|
    ensures forall n :: n in Enumerate(names) ==>
      Enumerate(names)[n] in Invert(Enumerate(names)) && Invert(Enumerate(names))[Enumerate(names)[n]] == n
    ensures forall i :: i in Invert(Enumerate(names)) ==>
      Invert(Enumerate(names))[i] in Enumerate(names) && Enumerate(names)[Invert(Enumerate(names))[i]] == i
  {
    EnumerateDistinct(names);
    var m := Enumerate(names);
    var ids := Invert(m);
    forall i | 0 <= i < |names| ensures i in m.Values {
      assert m[names[i]] == i;
    }
    forall v | v in m.Values ensures 0 <= v < |names| {
      var n :| n in m && m[n] == v;
      var i :| 0 <= i < |names| && names[i] == n;
    }
    forall i | i in ids ensures ids[i] in m && m[ids[i]] == i {
      var n :| n in m && m[n] == i;
    }
  }

  /** `biome_ids` is the exact inverse of `biome_map`, and the ids are the
      positions in `biome_names`. */
  lemma BiomeIdsInvertBiomeMap()
    ensures forall i :: 0 <= i < |BiomeNames| ==> BiomeMap()[BiomeNames[i]] == i
    ensures forall i :: i in BiomeIds() <==> 0 <= i < |BiomeNames|
    ensures forall n :: n in BiomeMap() ==> BiomeMap()[n] in BiomeIds() && BiomeIds()[BiomeMap()[n]] == n
    ensures forall i :: i in BiomeIds() ==> BiomeIds()[i] in BiomeMap() && BiomeMap()[BiomeIds()[i]] == i
  {
    InvertEnumerate(BiomeNames);
  }

  /** The percentiles `assign_biomes` compares against; computing them is
      not modelled. `iceBelow` is the 5th percentile of all temperatures,
      `desertBelow` and `swampAbove` the 5th and 95th percentiles of the
      precipitation of dry cells, `tropicalAbove` the median temperature
      of dry cells. */
  datatype Thresholds = Thresholds(iceBelow: real, desertBelow: real, swampAbove: real, tropicalAbove: real)

  predicate IsIce(t: Thresholds, temperature: real) {
    temperature < t.iceBelow
  }

  predicate Wet(water: Ext) {
    Lt(Fin(0.0), water)
  }

  /** The biome of one cell as a priority rule: water wins on any wet cell
      that is not ice, then ice, then swamp, then desert, then the two
      forests split by temperature. */
  function Classify(t: Thresholds, temperature: real, precipitation: real, water: Ext): (b: int)
    ensures 0 <= b < |BiomeNames| && b != Beach
    ensures IsIce(t, temperature) <==> b == Ice
    ensures b == Water <==> !IsIce(t, temperature) && Wet(water)
    ensures b == Swamp <==> !IsIce(t, temperature) && !Wet(water) && precipitation > t.swampAbove
    // swamp wins where both the swamp and the desert test hold
    ensures b == Desert <==>
      !IsIce(t, temperature) && !Wet(water) && !(precipitation > t.swampAbove) && precipitation < t.desertBelow
    // a cell no masked write labelled becomes a forest, split by temperature
    ensures b == TropicalForest <==>
      && !IsIce(t, temperature) && !Wet(water) && !(precipitation > t.swampAbove) && !(precipitation < t.desertBelow)
      && temperature > t.tropicalAbove
    ensures b == TemperateForest <==>
      && !IsIce(t, temperature) && !Wet(water) && !(precipitation > t.swampAbove) && !(precipitation < t.desertBelow)
      && !(temperature > t.tropicalAbove)
  {
    if !IsIce(t, temperature) && Wet(water) then Water
    else if IsIce(t, temperature) then Ice
    else if precipitation > t.swampAbove then Swamp
    else if precipitation < t.desertBelow then Desert
    else if temperature > t.tropicalAbove then TropicalForest
    else TemperateForest
  }

  /** `a[mask] = v` */
  method MaskedWrite(a: array<int>, mask: seq<bool>, v: int)
    requires |mask| == a.Length
    modifies a
    ensures forall i :: 0 <= i < a.Length ==> a[i] == if mask[i] then v else old(a[i])
  {
    forall i | 0 <= i < a.Length && mask[i] {
      a[i] := v;
    }
  }

  /** `assign_biomes`: starts every cell at -1 and applies the masked writes
      in the order of the source; the cells end as `Classify` says. */
  method AssignBiomes(t: Thresholds, temperature: seq<real>, precipitation: seq<real>, water: seq<Ext>)
    returns (biomes: seq<int>, ids: map<int, string>)
    requires |precipitation| == |temperature| && |water| == |temperature|
    ensures |biomes| == |temperature|
    ensures forall i :: 0 <= i < |biomes| ==> biomes[i] == Classify(t, temperature[i], precipitation[i], water[i])
    ensures ids == BiomeIds()
  {
    var n := |temperature|;
    var ice := seq(n, i requires 0 <= i < n => IsIce(t, temperature[i]));
    var beach := seq(n, i requires 0 <= i < n => false);
    var nib := seq(n, i requires 0 <= i < n => !beach[i] && !ice[i]);
    var desert := seq(n, i requires 0 <= i < n => nib[i] && precipitation[i] < t.desertBelow);
    var swamp := seq(n, i requires 0 <= i < n => nib[i] && precipitation[i] > t.swampAbove);

    var a := new int[n](_ => Unassigned);
    MaskedWrite(a, ice, Ice);
    MaskedWrite(a, desert, Desert);
    MaskedWrite(a, beach, Beach);
    MaskedWrite(a, swamp, Swamp);
    var ranked := a[..];
    var warm := seq(n, i requires 0 <= i < n => ranked[i] < 0 && temperature[i] > t.tropicalAbove);
    MaskedWrite(a, warm, TropicalForest);
    var forested := a[..];
    var unassigned := seq(n, i requires 0 <= i < n => forested[i] < 0);
    MaskedWrite(a, unassigned, TemperateForest);
    var flooded := seq(n, i requires 0 <= i < n => !ice[i] && Wet(water[i]));
    MaskedWrite(a, flooded, Water);
    forall i | 0 <= i < n
      ensures a[i] == Classify(t, temperature[i], precipitation[i], water[i])
    {
      assert ranked[i] < 0 <==> !ice[i] && !desert[i] && !swamp[i];
    }
    biomes := a[..];
    ids := BiomeIds();
  }
}
