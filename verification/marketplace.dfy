/**
 * The marketplace page's data layer: joining the ledger's creation events with
 * per-sample detail reads, and the client-side search, category filter,
 * category list, media-type guess and media check over the loaded samples.
 */
module Marketplace {
  import opened Optional
  import opened Text
  import opened Seqs

  /** The current state of one sample as the ledger's `getOneSample` returns it. */
  datatype SampleDetails = SampleDetails(
    title: string,
    artist: string,
    category: string,
    description: string,
    numberOfCopies: nat,
    priceNft: nat,
    ipfsHash: string)

  /** The arguments of one `SampleCreated` event. */
  datatype SampleCreated = SampleCreated(
    id: nat,
    addressArtist: string,
    artist: string,
    title: string,
    category: string,
    description: string,
    numberOfCopies: nat,
    priceNft: nat,
    ipfsHash: string)

  /** A listed sample: its creation event joined with its detail read. */
  datatype Sample = Sample(args: SampleCreated, details: SampleDetails)

  /**
   * A detail read keyed by sample id; `None` is a read that rejects.
   * Being a function, two reads of the same id see the same state.
   */
  type DetailLookup = nat -> Option<SampleDetails>

  // ---------------------------------------------------------------- load

  /**
   * The `Promise.all` join of events with their detail reads: one sample per
   * event in event order, or no result at all when any read rejects.
   */
  function JoinDetails(events: seq<SampleCreated>, lookup: DetailLookup): (r: Option<seq<Sample>>)
    ensures r.Some? <==> forall i :: 0 <= i < |events| ==> lookup(events[i].id).Some?
    ensures r.Some? ==> |r.value| == |events|
    ensures r.Some? ==> forall i :: 0 <= i < |events| ==>
              r.value[i] == Sample(events[i], lookup(events[i].id).value)
    decreases |events|
  {
    if events == [] then Some([])
    else
      var n := |events| - 1;
      match JoinDetails(events[..n], lookup)
      case None => None
      case Some(init) =>
        match lookup(events[n].id)
        case None => None
        case Some(d) => Some(init + [Sample(events[n], d)])
  }

  /**
   * The `samples` state after the page's one load on mount: the joined list,
   * or the initial empty list when the event query (`None`) or any detail
   * read rejects.
   */
  function LoadSamples(events: Option<seq<SampleCreated>>, lookup: DetailLookup): (samples: seq<Sample>)
    ensures events.None? ==> samples == []
    ensures (events.Some? && exists i :: 0 <= i < |events.value| && lookup(events.value[i].id).None?)
            ==> samples == []
    ensures (events.Some? && forall i :: 0 <= i < |events.value| ==> lookup(events.value[i].id).Some?)
            ==> (&& |samples| == |events.value|
                 && forall i :: 0 <= i < |samples| ==>
                      samples[i].args == events.value[i]
                      && samples[i].details == lookup(events.value[i].id).value)
  {
    if events.None? then []
    else
      match JoinDetails(events.value, lookup)
      case None => []
      case Some(s) => s
  }

  /** Ledger with ids 1, 2, 3 where the read of 2 rejects: nothing is listed, not even 1 or 3. */
  lemma FailedReadListsNothing(e1: SampleCreated, e2: SampleCreated, e3: SampleCreated, lookup: DetailLookup)
    requires e1.id == 1 && e2.id == 2 && e3.id == 3
    requires lookup(2).None?
    ensures LoadSamples(Some([e1, e2, e3]), lookup) == []
  {
    assert [e1, e2, e3][1].id == 2;
  }

  // --------------------------------------------------------------- query

  /** The search box test: the lowered query occurs in the lowered title, artist or description. */
  predicate MatchesSearch(s: Sample, query: string)
    ensures MatchesSearch(s, query) <==>
              || Occurs(Lower(query), Lower(s.details.title))
              || Occurs(Lower(query), Lower(s.details.artist))
              || Occurs(Lower(query), Lower(s.details.description))
  {
    var q := Lower(query);
    Includes(Lower(s.details.title), q)
    || Includes(Lower(s.details.artist), q)
    || Includes(Lower(s.details.description), q)
  }

  /**
   * The category test. The selection is used as a truth value, so an empty
   * selected category constrains nothing, just as no selection does.
   */
  predicate MatchesCategory(s: Sample, selected: Option<string>) {
    if Truthy(selected) then s.details.category == selected.value else true
  }

  /** The test `filteredSamples` applies to each sample. */
  function Listed(query: string, selected: Option<string>): Sample -> bool {
    (s: Sample) => MatchesSearch(s, query) && MatchesCategory(s, selected)
  }

  /**
   * `filteredSamples`: an order-preserving subsequence of the samples that
   * keeps exactly the positions passing both the search and the category test.
   */
  function FilteredSamples(samples: seq<Sample>, query: string, selected: Option<string>): (r: seq<Sample>)
    ensures IsSubsequence(r, samples)
    ensures PicksOut(r, samples, KeptPositions(Listed(query, selected), samples))
    ensures forall k :: k in KeptPositions(Listed(query, selected), samples) <==>
              0 <= k < |samples| && MatchesSearch(samples[k], query) && MatchesCategory(samples[k], selected)
    ensures forall i :: 0 <= i < |r| ==> MatchesSearch(r[i], query) && MatchesCategory(r[i], selected)
  {
    FilterKeepsExactly(Listed(query, selected), samples);
    FilterIsSubsequence(Listed(query, selected), samples);
    Filter(Listed(query, selected), samples)
  }

  /** An empty query and no category list every sample unchanged. */
  lemma EmptyQueryListsAll(samples: seq<Sample>)
    ensures FilteredSamples(samples, "", None) == samples
  {
    forall s: Sample {
      EmptyOccursEverywhere(Lower(s.details.title));
    }
    FilterAll(Listed("", None), samples);
  }

  /** The query's letter case never changes the filtered list. */
  lemma SearchIgnoresCase(samples: seq<Sample>, q1: string, q2: string, selected: Option<string>)
    requires EqualIgnoringCase(q1, q2)
    ensures FilteredSamples(samples, q1, selected) == FilteredSamples(samples, q2, selected)
  {
    LowerRespectsCase(q1, q2);
    FilterCongruent(Listed(q1, selected), Listed(q2, selected), samples);
  }

  /** Without a (truthy) category only the search applies. */
  lemma NoCategoryIsSearchOnly(samples: seq<Sample>, query: string, selected: Option<string>)
    requires !Truthy(selected)
    ensures FilteredSamples(samples, query, selected) == Filter((s: Sample) => MatchesSearch(s, query), samples)
  {
    FilterCongruent(Listed(query, selected), (s: Sample) => MatchesSearch(s, query), samples);
  }

  /**
   * A selected category keeps, for any query, exactly the searched samples of
   * that category, compared case-sensitively; with an empty query, exactly the
   * samples of that category.
   */
  lemma CategoryKeepsExactMatches(samples: seq<Sample>, query: string, c: string, s: Sample)
    requires c != ""
    ensures FilteredSamples(samples, query, Some(c))
            == Filter((x: Sample) => MatchesSearch(x, query) && x.details.category == c, samples)
    ensures s in FilteredSamples(samples, "", Some(c)) <==> s in samples && s.details.category == c
  {
    FilterCongruent(Listed(query, Some(c)), (x: Sample) => MatchesSearch(x, query) && x.details.category == c, samples);
    EmptyOccursEverywhere(Lower(s.details.title));
    if s in samples {
      var k :| 0 <= k < |samples| && samples[k] == s;
    }
  }

  /** Searching then filtering by category, in either order, is the combined filter. */
  lemma SearchAndCategoryCommute(samples: seq<Sample>, query: string, selected: Option<string>)
    ensures Filter((s: Sample) => MatchesSearch(s, query), Filter((s: Sample) => MatchesCategory(s, selected), samples))
            == FilteredSamples(samples, query, selected)
    ensures Filter((s: Sample) => MatchesCategory(s, selected), Filter((s: Sample) => MatchesSearch(s, query), samples))
            == FilteredSamples(samples, query, selected)
  {
    var search := (s: Sample) => MatchesSearch(s, query);
    var category := (s: Sample) => MatchesCategory(s, selected);
    var both := Listed(query, selected);
    FilterFilter(search, category, both, samples);
    FilterFilter(category, search, both, samples);
  }

  // ----------------------------------------------------------- categories

  function CategoryColumn(samples: seq<Sample>): seq<string> {
    seq(|samples|, i requires 0 <= i < |samples| => samples[i].details.category)
  }

  /** `categories`: the distinct categories of the loaded samples, in order of first appearance. */
  function Categories(samples: seq<Sample>): (cs: seq<string>)
    ensures forall i, j :: 0 <= i < j < |cs| ==> cs[i] != cs[j]
    ensures forall k :: 0 <= k < |samples| ==> samples[k].details.category in cs
    ensures forall i :: 0 <= i < |cs| ==> exists k :: 0 <= k < |samples| && samples[k].details.category == cs[i]
    ensures samples == [] ==> cs == []
  {
    var column := CategoryColumn(samples);
    var cs := Distinct(column);
    assert forall k :: 0 <= k < |samples| ==> column[k] == samples[k].details.category;
    assert forall i :: 0 <= i < |cs| ==> cs[i] in column;
    cs
  }

  /** The category list is the first appearance of each category, in sample order. */
  lemma CategoriesInFirstAppearanceOrder(samples: seq<Sample>)
    ensures PicksOut(Categories(samples), CategoryColumn(samples), FirstPositions(CategoryColumn(samples)))
    ensures forall k :: k in FirstPositions(CategoryColumn(samples)) <==>
              0 <= k < |samples| && forall j :: 0 <= j < k ==> samples[j].details.category != samples[k].details.category
  {
    var column := CategoryColumn(samples);
    DistinctKeepsFirstOccurrences(column);
    forall k | 0 <= k < |samples|
      ensures FirstOccurrenceAt(column, k) <==>
                forall j :: 0 <= j < k ==> samples[j].details.category != samples[k].details.category
    {
      assert forall j :: 0 <= j <= k ==> column[j] == samples[j].details.category;
    }
  }

  // -------------------------------------------------------------- media

  const AudioMpeg := "audio/mpeg"
  const VideoMp4 := "video/mp4"

  /** `getFileType`: audio when the lowered category mentions audio, music or sound, else video. */
  function GetFileType(s: Sample): (t: string)
    ensures t == AudioMpeg || t == VideoMp4
    ensures t == AudioMpeg <==>
              var c := Lower(s.details.category);
              Occurs("audio", c) || Occurs("music", c) || Occurs("sound", c)
  {
    var c := Lower(s.details.category);
    if Includes(c, "audio") || Includes(c, "music") || Includes(c, "sound") then AudioMpeg else VideoMp4
  }

  /** `hasMediaFile`: the content hash holds something besides whitespace. */
  function HasMediaFile(s: Sample): (b: bool)
    ensures b <==> exists i :: 0 <= i < |s.details.ipfsHash| && !IsJsWhitespace(s.details.ipfsHash[i])
  {
    s.details.ipfsHash != "" && Trim(s.details.ipfsHash) != ""
  }

  // ----------------------------------------------------------- scenarios

  function Listing(title: string, artist: string, category: string, description: string): Sample {
    var d := SampleDetails(title, artist, category, description, 10, 1, "");
    Sample(SampleCreated(0, "0x0", artist, title, category, description, 10, 1, ""), d)
  }

  /** Mixed-case query "JaZz" finds the title "Jazz Loop". */
  lemma MixedCaseQueryFindsTitle()
    ensures MatchesSearch(Listing("Jazz Loop", "Ann", "Jungle", ""), "JaZz")
  {
    assert Lower("JaZz") == "jazz";
    assert Lower("Jazz Loop")[..4] == "jazz";
  }

  /** Selecting "House" among a Jungle and a House sample lists only the House one. */
  lemma HouseFilterScenario()
    ensures var jungle := Listing("Break", "A", "Jungle", "");
            var house := Listing("Deep", "B", "House", "");
            FilteredSamples([jungle, house], "", Some("House")) == [house]
  {
    var jungle := Listing("Break", "A", "Jungle", "");
    var house := Listing("Deep", "B", "House", "");
    var listed := Listed("", Some("House"));
    EmptyOccursEverywhere(Lower(jungle.details.title));
    EmptyOccursEverywhere(Lower(house.details.title));
    assert !listed(jungle) && listed(house);
    FilterSingleton(listed, jungle);
    FilterSnoc(listed, [jungle], house);
    assert [jungle] + [house] == [jungle, house];
  }
}
