/** Which projects the projects section shows (`renderProjetos`,
    `toggleVerMais`): a technology filter, and with no filter a cap of
    MaxFeatured cards unless "show all" is on. */
module Selection {

  import opened Seqs
  import opened Text
  import opened ProjectData

  /** How many cards the section shows by default. */
  const MaxFeatured := 3

  /** The filter box's value as the page uses it: trimmed, lower-cased. */
  function NormalizeFilter(input: string): string
  {
    Lower(Trim(input))
  }

  /** The project lists a technology whose lower-cased name contains the
      (already lower-cased) filter text. */
  predicate MatchesTech(p: Project, filter: string)
  {
    p.tecnologias.Some? &&
    exists k :: 0 <= k < |p.tecnologias.value| && Contains(Lower(p.tecnologias.value[k]), filter)
  }

  predicate IsFeatured(p: Project)
  {
    p.featured
  }

  /** The projects matching `filter`, in list order. */
  function ByTechnology(all: seq<Project>, filter: string): seq<Project>
  {
    Filter((p: Project) => MatchesTech(p, filter), all)
  }

  /** The default cap: the first MaxFeatured featured projects when there
      are that many, else the first MaxFeatured of the whole list. */
  function Capped(list: seq<Project>): seq<Project>
  {
    var featured := Filter(IsFeatured, list);
    if |featured| >= MaxFeatured then featured[..MaxFeatured]
    else list[..Min(MaxFeatured, |list|)]
  }

  /** The list `renderProjetos` renders, for the cached projects `all`,
      the normalized filter and the "show all" flag it starts from. */
  function Selected(all: seq<Project>, filter: string, showAll: bool): seq<Project>
  {
    var list := if filter != "" then ByTechnology(all, filter) else all;
    if !showAll && filter == "" then Capped(list) else list
  }

  /** The "show all" flag after a render: a filter switches it off. */
  function FlagAfterRender(filter: string, showAll: bool): bool
  {
    if filter != "" then false else showAll
  }

  /** With no filter and "show all" off: when at least MaxFeatured projects
      are featured, the first MaxFeatured featured projects in list order;
      otherwise the first MaxFeatured projects of the list. Either way at
      most MaxFeatured projects, a subsequence of the list. */
  lemma CappedSelection(all: seq<Project>)
    ensures var r := Selected(all, "", false);
      var featured := Filter(IsFeatured, all);
      && |r| <= MaxFeatured
      && IsSubsequence(r, all)
      && (|featured| >= MaxFeatured ==> r == featured[..MaxFeatured] && forall k :: 0 <= k < |r| ==> r[k].featured)
      && (|featured| < MaxFeatured ==> r == all[..Min(MaxFeatured, |all|)])
  {
    var r := Selected(all, "", false);
    var featured := Filter(IsFeatured, all);
    if |featured| >= MaxFeatured {
      FilterExact(IsFeatured, all);
      EmbedsPrefix(featured, all, Positions(IsFeatured, all), MaxFeatured);
      assert Embeds(r, all, Positions(IsFeatured, all)[..MaxFeatured]);
      forall k | 0 <= k < |r| ensures r[k].featured {
        assert r[k] == featured[k];
      }
    } else {
      var n := Min(MaxFeatured, |all|);
      PrefixEmbeds(all, n);
      assert Embeds(r, all, seq(n, i => i));
    }
  }

  /** With a non-empty filter: exactly the projects matching it, in list
      order and at the positions that match, never capped whatever the
      flag; and the flag is off afterwards. */
  lemma FilteredSelection(all: seq<Project>, filter: string, showAll: bool)
    requires filter != ""
    ensures var r := Selected(all, filter, showAll);
      var keep := (p: Project) => MatchesTech(p, filter);
      && r == ByTechnology(all, filter)
      && Embeds(r, all, Positions(keep, all))
      && (forall i :: 0 <= i < |all| ==> (MatchesTech(all[i], filter) <==> i in Positions(keep, all)))
      && !FlagAfterRender(filter, showAll)
  {
    FilterExact((p: Project) => MatchesTech(p, filter), all);
  }

  /** With no filter and "show all" on, the whole list, unchanged. */
  lemma ShowAllSelection(all: seq<Project>)
    ensures Selected(all, "", true) == all
  {
  }

  /** Filtering ignores case: typing the filter in any case selects the
      same projects. */
  lemma FilterIgnoresCase(all: seq<Project>, input: string, showAll: bool)
    ensures NormalizeFilter(Lower(input)) == NormalizeFilter(input)
    ensures Selected(all, NormalizeFilter(Lower(input)), showAll) == Selected(all, NormalizeFilter(input), showAll)
  {
    TrimLowerCommute(input);
    LowerIdempotent(Trim(input));
  }

  /** The projects section's state: the cached project list and the
      "show all" flag, both page-wide. `hasContainer` says whether the page
      has the element the cards go into; without it a render does nothing. */
  class ProjectsSection {
    const hasContainer: bool
    var cache: seq<Project>
    var showingAll: bool

    constructor (hasContainer: bool)
      ensures this.hasContainer == hasContainer && cache == [] && !showingAll
    {
      this.hasContainer := hasContainer;
      cache := [];
      showingAll := false;
    }

    /** A payload arrived from the data file: a list replaces the cache,
        anything else empties it; then the section is rendered. */
    method Load(payload: Option<seq<Project>>, filterInput: string) returns (shown: seq<Project>)
      modifies this`cache, this`showingAll
      ensures cache == (if payload.Some? then payload.value else [])
      ensures hasContainer ==> showingAll == FlagAfterRender(NormalizeFilter(filterInput), old(showingAll))
      ensures hasContainer ==> shown == Selected(cache, NormalizeFilter(filterInput), old(showingAll))
      ensures !hasContainer ==> showingAll == old(showingAll) && shown == []
    {
      cache := if payload.Some? then payload.value else [];
      shown := Render(filterInput);
    }

    /** `renderProjetos`: the list to show for the filter box's value; with
        no container, nothing is shown and the flag is left alone. */
    method Render(filterInput: string) returns (shown: seq<Project>)
      modifies this`showingAll
      ensures hasContainer ==> showingAll == FlagAfterRender(NormalizeFilter(filterInput), old(showingAll))
      ensures hasContainer ==> shown == Selected(cache, NormalizeFilter(filterInput), old(showingAll))
      ensures !hasContainer ==> showingAll == old(showingAll) && shown == []
    {
      if !hasContainer {
        return [];
      }
      var filter := NormalizeFilter(filterInput);
      if filter != "" {
        showingAll := false;
      }
      var list := cache;
      if filter != "" {
        list := ByTechnology(list, filter);
      }
      var applyCap := !showingAll && filter == "";
      if applyCap {
        var featured := Filter(IsFeatured, list);
        if |featured| >= MaxFeatured {
          list := featured[..MaxFeatured];
        } else {
          list := list[..Min(MaxFeatured, |list|)];
        }
      }
      shown := list;
    }

    /** `toggleVerMais`: flips the flag, then renders. */
    method ToggleShowMore(filterInput: string) returns (shown: seq<Project>)
      modifies this`showingAll
      ensures hasContainer ==> showingAll == FlagAfterRender(NormalizeFilter(filterInput), !old(showingAll))
      ensures hasContainer ==> shown == Selected(cache, NormalizeFilter(filterInput), !old(showingAll))
      ensures !hasContainer ==> showingAll == !old(showingAll) && shown == []
    {
      showingAll := !showingAll;
      shown := Render(filterInput);
    }
  }
}
