/**
 * Previous/next navigation between guides
 * (crate/src/page/partial/content_control_panel.rs).
 *
 * Both functions restrict the catalog to the selected guide's seed version,
 * find the first guide equal to the selected one (equal slugs), and return
 * the neighbour one position back or forward in that restricted list.
 */
module ContentControlPanel {
  import opened Wrappers
  import opened Sequences
  import Guides

  /** The guide test of `filter(|guide| guide.seed_version == version)`. */
  function InVersion(version: string): Guides.Guide -> bool
  {
    (g: Guides.Guide) => g.seedVersion == version
  }

  /** The guide test of `position(|guide| *guide == selected_guide)`. */
  function IsSelected(selected: Guides.Guide): Guides.Guide -> bool
  {
    (g: Guides.Guide) => Guides.SameGuide(g, selected)
  }

  /** The catalog guides of the selected guide's version, in catalog order. */
  function VersionGuides(selected: Guides.Guide, guides: seq<Guides.Guide>): seq<Guides.Guide>
  {
    Filter(guides, InVersion(selected.seedVersion))
  }

  /** `previous_guide`. */
  function PreviousGuide(selected: Guides.Guide, guides: seq<Guides.Guide>): (r: Option<Guides.Guide>)
    ensures r.Some? ==> r.value in guides && r.value.seedVersion == selected.seedVersion
  {
    var versionGuides := VersionGuides(selected, guides);
    match Position(versionGuides, IsSelected(selected))
    case None => None
    case Some(i) => if i == 0 then None else Some(versionGuides[i - 1])
  }

  /** `next_guide`. */
  function NextGuide(selected: Guides.Guide, guides: seq<Guides.Guide>): (r: Option<Guides.Guide>)
    ensures r.Some? ==> r.value in guides && r.value.seedVersion == selected.seedVersion
  {
    var versionGuides := VersionGuides(selected, guides);
    match Position(versionGuides, IsSelected(selected))
    case None => None
    case Some(i) => if i + 1 < |versionGuides| then Some(versionGuides[i + 1]) else None
  }

  /** A guide with no same-slug guide in its own version has no neighbours. */
  lemma NotInVersionHasNoNeighbours(selected: Guides.Guide, guides: seq<Guides.Guide>)
    requires forall g :: g in guides && g.seedVersion == selected.seedVersion ==>
                         !Guides.SameGuide(g, selected)
    ensures PreviousGuide(selected, guides).None?
    ensures NextGuide(selected, guides).None?
  {
    var versionGuides := VersionGuides(selected, guides);
    assert forall j :: 0 <= j < |versionGuides| ==> !IsSelected(selected)(versionGuides[j]) by {
      forall j | 0 <= j < |versionGuides|
        ensures !IsSelected(selected)(versionGuides[j])
      {
        assert versionGuides[j] in versionGuides;
      }
    }
  }

  /**
   * `k` is the first catalog position holding a guide of the selected
   * guide's version that equals the selected guide.
   */
  ghost predicate FirstOccurrence(selected: Guides.Guide, guides: seq<Guides.Guide>, k: int)
  {
    && 0 <= k < |guides|
    && guides[k].seedVersion == selected.seedVersion
    && Guides.SameGuide(guides[k], selected)
    && forall m :: 0 <= m < k ==>
         !(guides[m].seedVersion == selected.seedVersion && Guides.SameGuide(guides[m], selected))
  }

  /**
   * The selected guide's place in its version's list is the number of guides
   * of that version before its first occurrence in the catalog.
   */
  lemma SelectedPosition(selected: Guides.Guide, guides: seq<Guides.Guide>, k: int)
    requires FirstOccurrence(selected, guides, k)
    ensures var before := Filter(guides[..k], InVersion(selected.seedVersion));
            var after := Filter(guides[k + 1..], InVersion(selected.seedVersion));
            && VersionGuides(selected, guides) == before + [guides[k]] + after
            && Position(VersionGuides(selected, guides), IsSelected(selected)) == Some(|before|)
  {
    var p := InVersion(selected.seedVersion);
    var before := Filter(guides[..k], p);
    var after := Filter(guides[k + 1..], p);
    FilterAround(guides, p, k);
    var f := before + [guides[k]] + after;
    assert VersionGuides(selected, guides) == f;
    forall j | 0 <= j < |before|
      ensures !IsSelected(selected)(f[j])
    {
      assert f[j] == before[j] && before[j] in before;
      assert before[j] in guides[..k];
    }
    PositionIsFirst(f, IsSelected(selected), |before|);
  }

  /** The previous guide is the last guide of the version before the first occurrence. */
  lemma PreviousIsLastBefore(selected: Guides.Guide, guides: seq<Guides.Guide>, k: int)
    requires FirstOccurrence(selected, guides, k)
    ensures var before := Filter(guides[..k], InVersion(selected.seedVersion));
            PreviousGuide(selected, guides) == if |before| == 0 then None else Some(before[|before| - 1])
  {
    var before := Filter(guides[..k], InVersion(selected.seedVersion));
    var after := Filter(guides[k + 1..], InVersion(selected.seedVersion));
    var versionGuides := VersionGuides(selected, guides);
    assert versionGuides == before + [guides[k]] + after &&
           Position(versionGuides, IsSelected(selected)) == Some(|before|) by {
      SelectedPosition(selected, guides, k);
    }
    var i := |before|;
    assert PreviousGuide(selected, guides) == if i == 0 then None else Some(versionGuides[i - 1]);
    if i > 0 {
      var front := before + [guides[k]];
      assert versionGuides == front + after;
      assert versionGuides[i - 1] == front[i - 1] == before[i - 1];
    }
  }

  /** The next guide is the first guide of the version after the first occurrence. */
  lemma NextIsFirstAfter(selected: Guides.Guide, guides: seq<Guides.Guide>, k: int)
    requires FirstOccurrence(selected, guides, k)
    ensures var after := Filter(guides[k + 1..], InVersion(selected.seedVersion));
            NextGuide(selected, guides) == if |after| == 0 then None else Some(after[0])
  {
    var before := Filter(guides[..k], InVersion(selected.seedVersion));
    var after := Filter(guides[k + 1..], InVersion(selected.seedVersion));
    var versionGuides := VersionGuides(selected, guides);
    assert versionGuides == before + [guides[k]] + after &&
           Position(versionGuides, IsSelected(selected)) == Some(|before|) by {
      SelectedPosition(selected, guides, k);
    }
    var i := |before|;
    assert |versionGuides| == i + 1 + |after|;
    assert NextGuide(selected, guides) ==
           if i + 1 < |versionGuides| then Some(versionGuides[i + 1]) else None;
    if |after| > 0 {
      var front := before + [guides[k]];
      assert versionGuides == front + after;
      assert versionGuides[i + 1] == after[0];
    }
  }

  /** The previous guide when `guides[j]` is the last guide of the version before `k`. */
  lemma PreviousAt(selected: Guides.Guide, guides: seq<Guides.Guide>, k: int, j: int)
    requires FirstOccurrence(selected, guides, k)
    requires 0 <= j < k && guides[j].seedVersion == selected.seedVersion
    requires forall m :: j < m < k ==> guides[m].seedVersion != selected.seedVersion
    ensures PreviousGuide(selected, guides) == Some(guides[j])
  {
    var p := InVersion(selected.seedVersion);
    var prefix := guides[..k];
    var before := Filter(prefix, p);
    assert |before| > 0 && before[|before| - 1] == guides[j] by {
      assert prefix[j] == guides[j] && p(prefix[j]);
      forall m | j < m < |prefix|
        ensures !p(prefix[m])
      {
        assert prefix[m] == guides[m];
      }
      FilterLast(prefix, p, j);
    }
    PreviousIsLastBefore(selected, guides, k);
  }

  /** The next guide when `guides[j]` is the first guide of the version after `k`. */
  lemma NextAt(selected: Guides.Guide, guides: seq<Guides.Guide>, k: int, j: int)
    requires FirstOccurrence(selected, guides, k)
    requires k < j < |guides| && guides[j].seedVersion == selected.seedVersion
    requires forall m :: k < m < j ==> guides[m].seedVersion != selected.seedVersion
    ensures NextGuide(selected, guides) == Some(guides[j])
  {
    var p := InVersion(selected.seedVersion);
    var suffix := guides[k + 1..];
    var after := Filter(suffix, p);
    assert |after| > 0 && after[0] == guides[j] by {
      assert suffix[j - k - 1] == guides[j] && p(suffix[j - k - 1]);
      forall m | 0 <= m < j - k - 1
        ensures !p(suffix[m])
      {
        assert suffix[m] == guides[k + 1 + m];
      }
      FilterFirst(suffix, p, j - k - 1);
    }
    NextIsFirstAfter(selected, guides, k);
  }

  /**
   * In catalog terms, the previous guide is the last guide of the same
   * version before the selected guide's first occurrence, and there is none
   * when no guide of that version comes before it.
   */
  lemma PreviousInCatalog(selected: Guides.Guide, guides: seq<Guides.Guide>, k: int)
    requires FirstOccurrence(selected, guides, k)
    ensures (forall m :: 0 <= m < k ==> guides[m].seedVersion != selected.seedVersion) ==>
            PreviousGuide(selected, guides).None?
    ensures forall j :: 0 <= j < k && guides[j].seedVersion == selected.seedVersion &&
                        (forall m :: j < m < k ==> guides[m].seedVersion != selected.seedVersion) ==>
                        PreviousGuide(selected, guides) == Some(guides[j])
  {
    var prefix := guides[..k];
    if forall m :: 0 <= m < k ==> guides[m].seedVersion != selected.seedVersion {
      PreviousIsLastBefore(selected, guides, k);
      assert forall m :: 0 <= m < |prefix| ==> prefix[m] == guides[m];
      FilterNothing(prefix, InVersion(selected.seedVersion));
    }
    forall j | 0 <= j < k && guides[j].seedVersion == selected.seedVersion &&
               (forall m :: j < m < k ==> guides[m].seedVersion != selected.seedVersion)
      ensures PreviousGuide(selected, guides) == Some(guides[j])
    {
      PreviousAt(selected, guides, k, j);
    }
  }

  /**
   * In catalog terms, the next guide is the first guide of the same version
   * after the selected guide's first occurrence, and there is none when no
   * guide of that version comes after it.
   */
  lemma NextInCatalog(selected: Guides.Guide, guides: seq<Guides.Guide>, k: int)
    requires FirstOccurrence(selected, guides, k)
    ensures (forall m :: k < m < |guides| ==> guides[m].seedVersion != selected.seedVersion) ==>
            NextGuide(selected, guides).None?
    ensures forall j :: k < j < |guides| && guides[j].seedVersion == selected.seedVersion &&
                        (forall m :: k < m < j ==> guides[m].seedVersion != selected.seedVersion) ==>
                        NextGuide(selected, guides) == Some(guides[j])
  {
    var suffix := guides[k + 1..];
    if forall m :: k < m < |guides| ==> guides[m].seedVersion != selected.seedVersion {
      NextIsFirstAfter(selected, guides, k);
      assert forall m :: 0 <= m < |suffix| ==> suffix[m] == guides[k + 1 + m];
      FilterNothing(suffix, InVersion(selected.seedVersion));
    }
    forall j | k < j < |guides| && guides[j].seedVersion == selected.seedVersion &&
               (forall m :: k < m < j ==> guides[m].seedVersion != selected.seedVersion)
      ensures NextGuide(selected, guides) == Some(guides[j])
    {
      NextAt(selected, guides, k, j);
    }
  }

  /** No two catalog guides of one version share a slug. */
  ghost predicate UniqueInVersion(guides: seq<Guides.Guide>)
  {
    forall i, j :: 0 <= i < j < |guides| && guides[i].seedVersion == guides[j].seedVersion ==>
                   guides[i].slug != guides[j].slug
  }

  /** Within one version's list, slugs are distinct when they are in each version of the catalog. */
  lemma VersionGuidesDistinct(selected: Guides.Guide, guides: seq<Guides.Guide>)
    requires UniqueInVersion(guides)
    ensures var f := VersionGuides(selected, guides);
            forall m, n :: 0 <= m < n < |f| ==> f[m].slug != f[n].slug
  {
    var f := VersionGuides(selected, guides);
    var idx := FilterIndices(guides, InVersion(selected.seedVersion));
    forall m, n | 0 <= m < n < |f|
      ensures f[m].slug != f[n].slug
    {
      assert f[m] == guides[idx[m]] && f[n] == guides[idx[n]] && idx[m] < idx[n];
    }
  }

  /**
   * Going forward and then back returns to the selected guide, when slugs
   * are unique within each version.
   */
  lemma NextThenPrevious(selected: Guides.Guide, guides: seq<Guides.Guide>)
    requires UniqueInVersion(guides)
    requires NextGuide(selected, guides).Some?
    ensures var back := PreviousGuide(NextGuide(selected, guides).value, guides);
            back.Some? && Guides.SameGuide(back.value, selected)
  {
    var f := VersionGuides(selected, guides);
    var i := Position(f, IsSelected(selected)).value;
    var next := f[i + 1];
    assert NextGuide(selected, guides) == Some(next);
    assert next in f;
    assert VersionGuides(next, guides) == f;
    VersionGuidesDistinct(selected, guides);
    PositionIsFirst(f, IsSelected(next), i + 1);
  }

  /**
   * Going back and then forward returns to the selected guide, when slugs
   * are unique within each version.
   */
  lemma PreviousThenNext(selected: Guides.Guide, guides: seq<Guides.Guide>)
    requires UniqueInVersion(guides)
    requires PreviousGuide(selected, guides).Some?
    ensures var forward := NextGuide(PreviousGuide(selected, guides).value, guides);
            forward.Some? && Guides.SameGuide(forward.value, selected)
  {
    var f := VersionGuides(selected, guides);
    var i := Position(f, IsSelected(selected)).value;
    var previous := f[i - 1];
    assert PreviousGuide(selected, guides) == Some(previous);
    assert previous in f;
    assert VersionGuides(previous, guides) == f;
    VersionGuidesDistinct(selected, guides);
    PositionIsFirst(f, IsSelected(previous), i - 1);
  }

  /** In the two-version catalog, the first version's list is its two guides. */
  lemma FirstVersionGuides(about7: Guides.Guide, model7: Guides.Guide, about8: Guides.Guide)
    requires about7.seedVersion == model7.seedVersion != about8.seedVersion
    ensures VersionGuides(model7, [about7, model7, about8]) == [about7, model7]
  {
    var catalog := [about7, model7, about8];
    var first := InVersion(about7.seedVersion);
    FilterAround(catalog, first, 1);
    assert catalog[..1] == [about7] && catalog[2..] == [about8];
    FilterSingle(about7, first);
    FilterSingle(about8, first);
  }

  /**
   * Two versions, each with a guide of slug `about`, and a second guide
   * `model` in the first version: from `model`, back is the first version's
   * `about` and there is nothing forward; from the first `about`, forward is
   * `model` and nothing is back.
   */
  lemma TwoVersionScenario(about7: Guides.Guide, model7: Guides.Guide, about8: Guides.Guide)
    requires about7.seedVersion == model7.seedVersion != about8.seedVersion
    requires about7.slug == about8.slug != model7.slug
    ensures PreviousGuide(model7, [about7, model7, about8]) == Some(about7)
    ensures NextGuide(model7, [about7, model7, about8]) == None
    ensures PreviousGuide(about7, [about7, model7, about8]) == None
    ensures NextGuide(about7, [about7, model7, about8]) == Some(model7)
  {
    var catalog := [about7, model7, about8];
    var versionGuides := [about7, model7];
    FirstVersionGuides(about7, model7, about8);
    assert VersionGuides(about7, catalog) == versionGuides;
    PositionIsFirst(versionGuides, IsSelected(model7), 1);
    PositionIsFirst(versionGuides, IsSelected(about7), 0);
  }

  /** In the same catalog, the second version's only guide has no neighbours. */
  lemma OtherVersionScenario(about7: Guides.Guide, model7: Guides.Guide, about8: Guides.Guide)
    requires about7.seedVersion == model7.seedVersion != about8.seedVersion
    requires about7.slug == about8.slug != model7.slug
    ensures PreviousGuide(about8, [about7, model7, about8]) == None
    ensures NextGuide(about8, [about7, model7, about8]) == None
  {
    var catalog := [about7, model7, about8];
    var second := InVersion(about8.seedVersion);
    assert VersionGuides(about8, catalog) == [about8] by {
      FilterAround(catalog, second, 2);
      assert catalog[..2] == [about7, model7] && catalog[3..] == [];
      FilterNothing(catalog[..2], second);
    }
    PositionIsFirst([about8], IsSelected(about8), 0);
  }
}
