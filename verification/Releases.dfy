/** Choosing the release to install: canonical stable tags, bounded pagination, and the guard against downgrades. */
module Releases {
  import opened Wrappers
  import opened SemVer
  import opened Texts

  datatype Release = Release(tagName: string, draft: bool, prerelease: bool)

  datatype SelectedRelease = SelectedRelease(version: Version, tag: string)

  datatype UpdateError =
    ReleaseQuery(message: string) | PageLimit | NoRelease | NotNewer(current: Version, selected: Version)

  const PREFIX := "cli-v"
  const PAGE_SIZE: nat := 100
  const MAX_PAGES: nat := 10
  const U64_BOUND: nat := 0x1_0000_0000_0000_0000

  // ---- Canonical stable tags -------------------------------------------------------------------------

  /** A number as version cores allow it: digits without a leading zero that fit sixty-four bits. */
  function ParseNumber(text: string): Option<nat> {
    if text == [] || !AllDigits(text) || (|text| > 1 && text[0] == '0') || ValueOf(text) >= U64_BOUND then None
    else Some(ValueOf(text))
  }

  /** A version that parses, has no pre-release or build part, and is written exactly as it prints. */
  function ParseStable(text: string): Option<Version> {
    var first := Until(text, '.');
    if first == |text| then None else ParseAfterMajor(text[..first], text[first + 1..])
  }

  function ParseAfterMajor(major: string, rest: string): Option<Version> {
    var second := Until(rest, '.');
    if second == |rest| then None else ParseParts(major, rest[..second], rest[second + 1..])
  }

  function ParseParts(major: string, minor: string, patch: string): Option<Version> {
    if ParseNumber(major).None? || ParseNumber(minor).None? || ParseNumber(patch).None? then None
    else Some(Version(ParseNumber(major).value, ParseNumber(minor).value, ParseNumber(patch).value, []))
  }

  function ShowStable(version: Version): string {
    Show(version.major) + "." + Show(version.minor) + "." + Show(version.patch)
  }

  lemma DotSplits(left: string, right: string)
    requires '.' !in left
    ensures Until(left + "." + right, '.') == |left|
    ensures (left + "." + right)[..|left|] == left && (left + "." + right)[|left| + 1..] == right
  {
    assert left + "." + right == left + ("." + right);
    UntilEnds(left, "." + right, '.');
  }

  predicate FitsCore(version: Version) {
    version.pre == [] && version.major < U64_BOUND && version.minor < U64_BOUND && version.patch < U64_BOUND
  }

  lemma ParsedNumberIsShown(text: string)
    requires ParseNumber(text).Some?
    ensures ParseNumber(text).value < U64_BOUND && Show(ParseNumber(text).value) == text
  {
    CanonicalNumberIsShown(text);
  }

  lemma DottedPieces(text: string, first: nat, second: nat)
    requires first < |text| && text[first] == '.'
    requires var rest := text[first + 1..]; second < |rest| && rest[second] == '.'
    ensures var rest := text[first + 1..];
            text == text[..first] + "." + rest[..second] + "." + rest[second + 1..]
  {
  }

  lemma ParsedTextIsShown(text: string)
    requires ParseStable(text).Some?
    ensures FitsCore(ParseStable(text).value) && text == ShowStable(ParseStable(text).value)
  {
    var first := Until(text, '.');
    var rest := text[first + 1..];
    var second := Until(rest, '.');
    ParsedNumberIsShown(text[..first]);
    ParsedNumberIsShown(rest[..second]);
    ParsedNumberIsShown(rest[second + 1..]);
    DottedPieces(text, first, second);
  }

  lemma ShownNumberParses(value: nat)
    requires value < U64_BOUND
    ensures ParseNumber(Show(value)) == Some(value)
  {
    ShownNumberIsCanonical(value);
  }

  lemma DottedTextParses(major: string, minor: string, patch: string)
    requires '.' !in major && '.' !in minor
    ensures ParseStable(major + "." + minor + "." + patch) == ParseParts(major, minor, patch)
  {
    var tail := minor + "." + patch;
    assert major + "." + minor + "." + patch == major + "." + tail;
    DotSplits(major, tail);
    DotSplits(minor, patch);
  }

  lemma ShownTextParses(version: Version)
    requires FitsCore(version)
    ensures ParseStable(ShowStable(version)) == Some(version)
  {
    var major, minor, patch := Show(version.major), Show(version.minor), Show(version.patch);
    assert forall i :: 0 <= i < |major| ==> IsDigit(major[i]);
    assert forall i :: 0 <= i < |minor| ==> IsDigit(minor[i]);
    DottedTextParses(major, minor, patch);
    ShownNumberParses(version.major);
    ShownNumberParses(version.minor);
    ShownNumberParses(version.patch);
  }

  /** Printing and parsing are inverse: a stable version has one tag, and a tag one version. */
  lemma StableTagsAreCanonical(text: string, version: Version)
    ensures ParseStable(text) == Some(version) <==> FitsCore(version) && text == ShowStable(version)
  {
    if ParseStable(text).Some? {
      ParsedTextIsShown(text);
    }
    if FitsCore(version) {
      ShownTextParses(version);
    }
  }

  function Candidate(release: Release): Option<SelectedRelease> {
    if release.draft || release.prerelease || !(PREFIX <= release.tagName) then None
    else match ParseStable(release.tagName[|PREFIX|..])
      case None => None
      case Some(version) => Some(SelectedRelease(version, release.tagName))
  }

  lemma CandidateTag(release: Release)
    requires Candidate(release).Some?
    ensures Candidate(release).value.tag == PREFIX + ShowStable(Candidate(release).value.version)
  {
    var text := release.tagName[|PREFIX|..];
    ParsedTextIsShown(text);
    assert release.tagName == release.tagName[..|PREFIX|] + text;
  }

  lemma EqualVersionsHaveEqualTags(a: Release, b: Release)
    requires Candidate(a).Some? && Candidate(b).Some?
    requires Candidate(a).value.version == Candidate(b).value.version
    ensures Candidate(a) == Candidate(b)
  {
    CandidateTag(a);
    CandidateTag(b);
  }

  // ---- Selection -------------------------------------------------------------------------------------

  function CompareSelected(a: SelectedRelease, b: SelectedRelease): Ordering {
    var order := Compare(a.version, b.version);
    if order == Equal then Lexicographic(a.tag, b.tag, CompareChar) else order
  }

  /** The greatest candidate, the last one among equals. */
  function SelectLatest(releases: seq<Release>): Option<SelectedRelease> {
    if releases == [] then None
    else
      Better(SelectLatest(releases[..|releases| - 1]), Candidate(releases[|releases| - 1]))
  }

  /** The selection is a candidate strictly greater than every other one, and there is none only without candidates. */
  ghost predicate IsGreatest(releases: seq<Release>, selected: Option<SelectedRelease>) {
    && (selected.Some? ==> exists release :: release in releases && Candidate(release) == selected)
    && (forall release | release in releases && Candidate(release).Some? ::
          && selected.Some?
          && (Candidate(release) == selected
              || Compare(Candidate(release).value.version, selected.value.version) == Less))
  }

  lemma {:induction false} SelectionIsGreatest(releases: seq<Release>)
    ensures IsGreatest(releases, SelectLatest(releases))
  {
    if releases != [] {
      var init, last := releases[..|releases| - 1], releases[|releases| - 1];
      SelectionIsGreatest(init);
      assert releases == init + [last];
      OneMoreRelease(init, last);
      assert releases[..|releases| - 1] == init;
    }
  }

  /** The better of the best so far and one more release. */
  function Better(best: Option<SelectedRelease>, last: Option<SelectedRelease>): Option<SelectedRelease> {
    if last.None? then best
    else if best.None? || CompareSelected(best.value, last.value) != Greater then last
    else best
  }

  lemma LowerStaysLower(a: Version, b: Version, c: Version)
    requires Compare(a, b) == Less && Compare(b, c) != Greater
    ensures Compare(a, c) == Less
  {
    PrecedenceIsATotalOrder(a, b, c);
    PrecedenceIsATotalOrder(a, c, b);
  }

  predicate IsUpTo(release: SelectedRelease, bound: SelectedRelease) {
    release == bound || Compare(release.version, bound.version) == Less
  }

  /** The better of two is above both and above whatever the first was above; one version has one tag. */
  lemma BetterStaysAbove(best: SelectedRelease, last: SelectedRelease, release: SelectedRelease)
    requires best.version == last.version ==> best == last
    requires IsUpTo(release, best)
    ensures var better := Better(Some(best), Some(last));
            better.Some? && IsUpTo(best, better.value) && IsUpTo(last, better.value) && IsUpTo(release, better.value)
  {
    PrecedenceIsATotalOrder(best.version, last.version, best.version);
    if release != best && Compare(best.version, last.version) == Less {
      LowerStaysLower(release.version, best.version, last.version);
    }
  }

  lemma OneMoreRelease(init: seq<Release>, last: Release)
    requires IsGreatest(init, SelectLatest(init))
    ensures IsGreatest(init + [last], Better(SelectLatest(init), Candidate(last)))
  {
    var best, candidate := SelectLatest(init), Candidate(last);
    assert last in init + [last];
    if best.Some? && candidate.Some? {
      var source :| source in init && Candidate(source) == best;
      assert source in init + [last];
      if best.value.version == candidate.value.version {
        EqualVersionsHaveEqualTags(source, last);
      }
      BetterStaysAbove(best.value, candidate.value, best.value);
      forall release | release in init + [last] && Candidate(release).Some?
        ensures IsUpTo(Candidate(release).value, Better(best, candidate).value)
      {
        if release in init {
          BetterStaysAbove(best.value, candidate.value, Candidate(release).value);
        }
      }
    }
  }

  /** Neither the order of the releases nor repeated ones change the selection. */
  lemma SelectionIgnoresOrder(a: seq<Release>, b: seq<Release>)
    requires forall release :: release in a <==> release in b
    ensures SelectLatest(a) == SelectLatest(b)
  {
    SelectionIsGreatest(a);
    SelectionIsGreatest(b);
    var x, y := SelectLatest(a), SelectLatest(b);
    if x.Some? && y.Some? {
      PrecedenceIsATotalOrder(x.value.version, y.value.version, x.value.version);
    }
  }

  /** A published release of this version: its tag is the prefix and the version as it prints. */
  predicate IsStableRelease(release: Release, version: Version) {
    !release.draft && !release.prerelease && FitsCore(version) && release.tagName == "cli-v" + ShowStable(version)
  }

  lemma CandidateExactlyWhen(release: Release, version: Version)
    ensures Candidate(release) == Some(SelectedRelease(version, release.tagName)) <==> IsStableRelease(release, version)
  {
    if PREFIX <= release.tagName {
      StableTagsAreCanonical(release.tagName[|PREFIX|..], version);
      assert release.tagName == PREFIX + release.tagName[|PREFIX|..];
    }
    if IsStableRelease(release, version) {
      assert release.tagName[|PREFIX|..] == ShowStable(version);
    }
  }

  /** The selection is a stable release with the highest three numbers, and there is none only without any. */
  lemma HighestStableReleaseIsSelected(releases: seq<Release>)
    ensures var selected := SelectLatest(releases);
            && (selected.Some? ==>
                exists release :: && release in releases && IsStableRelease(release, selected.value.version)
                                  && release.tagName == selected.value.tag)
            && (forall release, version | release in releases && IsStableRelease(release, version) ::
                  selected.Some? && (version == selected.value.version || CoreBelow(version, selected.value.version)))
  {
    var selected := SelectLatest(releases);
    SelectionIsGreatest(releases);
    if selected.Some? {
      var release :| release in releases && Candidate(release) == selected;
      CandidateExactlyWhen(release, selected.value.version);
    }
    forall release, version | release in releases && IsStableRelease(release, version)
      ensures selected.Some? && (version == selected.value.version || CoreBelow(version, selected.value.version))
    {
      StableReleaseIsNotAbove(releases, release, version);
    }
  }

  lemma StableReleaseIsNotAbove(releases: seq<Release>, release: Release, version: Version)
    requires release in releases && IsStableRelease(release, version)
    ensures var selected := SelectLatest(releases);
            selected.Some? && (version == selected.value.version || CoreBelow(version, selected.value.version))
  {
    SelectionIsGreatest(releases);
    CandidateExactlyWhen(release, version);
    CompareDecides(version, SelectLatest(releases).value.version);
  }

  // ---- Pagination ------------------------------------------------------------------------------------

  /** The releases of the first pages together. */
  function Collected(fetch: nat -> Result<seq<Release>, UpdateError>, pages: nat): seq<Release> {
    if pages == 0 then []
    else Collected(fetch, pages - 1) + match fetch(pages) case Ok(releases) => releases case Err(_) => []
  }

  predicate FullPage(page: Result<seq<Release>, UpdateError>) {
    page.Ok? && |page.value| >= PAGE_SIZE
  }

  method LatestStableRelease(fetch: nat -> Result<seq<Release>, UpdateError>)
    returns (result: Result<SelectedRelease, UpdateError>, fetched: seq<nat>)
    ensures 1 <= |fetched| <= 10
    ensures forall i :: 0 <= i < |fetched| ==> fetched[i] == i + 1
    ensures forall page :: 1 <= page < |fetched| ==> fetch(page).Ok? && |fetch(page).value| >= 100
    ensures match fetch(|fetched|)
            case Err(error) => result == Err(error)
            case Ok(releases) =>
              if |releases| >= 100 then |fetched| == 10 && result == Err(PageLimit)
              else
                var selected := SelectLatest(Collected(fetch, |fetched|));
                result == if selected.Some? then Ok(selected.value) else Err(NoRelease)
  {
    var releases := [];
    fetched := [];
    for page := 1 to MAX_PAGES + 1
      invariant |fetched| == page - 1
      invariant forall i :: 0 <= i < |fetched| ==> fetched[i] == i + 1
      invariant forall earlier :: 1 <= earlier < page ==> FullPage(fetch(earlier))
      invariant releases == Collected(fetch, page - 1)
    {
      fetched := fetched + [page];
      var answer := fetch(page);
      if answer.Err? {
        return Err(answer.error), fetched;
      }
      releases := releases + answer.value;
      if |answer.value| < PAGE_SIZE {
        var selected := SelectLatest(releases);
        return if selected.Some? then Ok(selected.value) else Err(NoRelease), fetched;
      }
    }
    return Err(PageLimit), fetched;
  }

  // ---- Updating --------------------------------------------------------------------------------------

  function UpdateIsRequired(current: Version, selected: Version, force: bool): Result<bool, UpdateError> {
    if force then Ok(true)
    else match Compare(selected, current)
      case Equal => Ok(false)
      case Less => Err(NotNewer(current, selected))
      case Greater => Ok(true)
  }

  function InstalledAfter(current: Version, choices: seq<Version>): Version
    decreases choices
  {
    if choices == [] then current
    else
      var required := UpdateIsRequired(current, choices[0], false);
      InstalledAfter(if required == Ok(true) then choices[0] else current, choices[1..])
  }

  /** Whatever versions are selected one after another, without force the installed one never gets lower. */
  lemma {:induction false} UnforcedUpdatesNeverGoBack(current: Version, choices: seq<Version>)
    ensures Compare(current, InstalledAfter(current, choices)) != Greater
    ensures forall choice | choice in choices :: Compare(choice, InstalledAfter(current, choices)) != Greater
    decreases choices
  {
    PrecedenceIsATotalOrder(current, current, current);
    if choices != [] {
      var next := if UpdateIsRequired(current, choices[0], false) == Ok(true) then choices[0] else current;
      var end := InstalledAfter(next, choices[1..]);
      UnforcedUpdatesNeverGoBack(next, choices[1..]);
      PrecedenceIsATotalOrder(choices[0], current, next);
      PrecedenceIsATotalOrder(current, choices[0], current);
      PrecedenceIsATotalOrder(current, next, end);
      PrecedenceIsATotalOrder(choices[0], next, end);
      PrecedenceIsATotalOrder(choices[0], choices[0], choices[0]);
    }
  }

  /** In numbers: forced, always; otherwise a lower version is refused, the same is kept, and a higher one installed. */
  lemma UpdateIsRequiredExactlyWhen(current: Version, selected: Version, force: bool)
    ensures UpdateIsRequired(current, selected, force) ==
            if force || Precedes(current, selected) then Ok(true)
            else if current == selected then Ok(false)
            else Err(NotNewer(current, selected))
  {
    CompareDecides(selected, current);
  }

  /** Without force the installed version ends as the highest of all it was and was offered, and never below any. */
  lemma {:induction false} UnforcedUpdatesReachTheHighest(current: Version, choices: seq<Version>)
    ensures InstalledAfter(current, choices) in [current] + choices
    ensures forall version :: version in [current] + choices ==>
              !Precedes(InstalledAfter(current, choices), version)
              && !CoreBelow(InstalledAfter(current, choices), version)
    decreases choices
  {
    UnforcedUpdatesNeverGoBack(current, choices);
    var end := InstalledAfter(current, choices);
    forall version | version in [current] + choices ensures !Precedes(end, version) {
      CompareDecides(version, end);
    }
    if choices != [] {
      var next := if UpdateIsRequired(current, choices[0], false) == Ok(true) then choices[0] else current;
      UnforcedUpdatesReachTheHighest(next, choices[1..]);
      assert choices == [choices[0]] + choices[1..];
    }
  }
}
