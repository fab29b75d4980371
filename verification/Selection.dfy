/** Choosing flows and formats from discovery's evidence (discovery.py). */
module Selection {
  import opened Models
  import opened Discovery
  import opened Ranking
  import opened Shuffling

  datatype SelectedFlow = SelectedFlow(id: CandidateId, flow: FlowKey, format: Format, firstPacketNumber: int)

  /** Why nothing is selected. */
  datatype SelectionError =
    | CandidateLimitExceeded
    | NothingMatches
    | FormatMismatch(unresolved: Option<FlowCandidate>)
    | Ambiguous(options: seq<SelectedFlow>)

  type Selected = Result<seq<SelectedFlow>, SelectionError>

  /** The codec and mode asked for, if any. */
  datatype Request = Request(codec: Option<Codec>, mode: Option<PayloadMode>)

  predicate Wanted(request: Request, format: Format) {
    && (request.codec.None? || request.codec.value == format.codec)
    && (request.mode.None? || request.mode.value == format.mode)
  }

  /** What is not asked for is open, and what is asked for is required. */
  lemma RequestFilters(request: Request, format: Format, codec: Codec, mode: PayloadMode)
    ensures Wanted(Request(None, None), format)
    ensures Wanted(request.(codec := Some(codec)), format)
            <==> Wanted(request.(codec := None), format) && format.codec == codec
    ensures Wanted(request.(mode := Some(mode)), format)
            <==> Wanted(request.(mode := None), format) && format.mode == mode
  {
  }

  predicate WellShaped(candidates: seq<FlowCandidate>) {
    forall c | c in candidates :: |c.formats| == |FORMATS|
  }

  function MatchingFormatsUpTo(c: FlowCandidate, request: Request, n: nat): seq<Format>
    requires n <= |FORMATS| == |c.formats|
  {
    if n == 0 then []
    else
      MatchingFormatsUpTo(c, request, n - 1)
      + (if c.formats[n - 1].IsValid() && Wanted(request, FORMATS[n - 1]) then [FORMATS[n - 1]] else [])
  }

  /** _matching_formats. */
  function MatchingFormats(c: FlowCandidate, request: Request): seq<Format>
    requires |c.formats| == |FORMATS|
  {
    MatchingFormatsUpTo(c, request, |FORMATS|)
  }

  /** _selection. */
  function SelectionOf(c: FlowCandidate, format: Format): SelectedFlow {
    SelectedFlow(c.id, c.flow, format, c.firstPacketNumber)
  }

  function Options(c: FlowCandidate, formats: seq<Format>): (options: seq<SelectedFlow>)
    ensures |options| == |formats|
  {
    seq(|formats|, i requires 0 <= i < |formats| => SelectionOf(c, formats[i]))
  }

  function MatchingCandidates(candidates: seq<FlowCandidate>, selector: FlowSelector): (matching: seq<FlowCandidate>)
    ensures forall c :: c in matching <==> c in candidates && selector.MatchesFlow(c.flow)
  {
    if candidates == [] then []
    else
      var front, last := candidates[..|candidates| - 1], candidates[|candidates| - 1];
      assert candidates == front + [last];
      MatchingCandidates(front, selector) + (if selector.MatchesFlow(last.flow) then [last] else [])
  }

  /** The candidates with a format that fits the request. */
  function Compatible(candidates: seq<FlowCandidate>, request: Request): (compatible: seq<FlowCandidate>)
    requires WellShaped(candidates)
    ensures forall c | c in compatible :: c in candidates
  {
    if candidates == [] then []
    else
      var front, last := candidates[..|candidates| - 1], candidates[|candidates| - 1];
      Compatible(front, request) + (if MatchingFormats(last, request) != [] then [last] else [])
  }

  predicate HasValidFormat(c: FlowCandidate) {
    exists i | 0 <= i < |c.formats| :: c.formats[i].IsValid()
  }

  function AllOptions(compatible: seq<FlowCandidate>, request: Request): seq<SelectedFlow>
    requires WellShaped(compatible)
  {
    if compatible == [] then []
    else
      var last := compatible[|compatible| - 1];
      AllOptions(compatible[..|compatible| - 1], request) + Options(last, MatchingFormats(last, request))
  }

  /** select_candidates for a selector that is not a port filter. */
  function SelectOne(matching: seq<FlowCandidate>, request: Request): Selected
    requires matching != [] && WellShaped(matching)
  {
    var compatible := Compatible(matching, request);
    if compatible == [] then
      Err(FormatMismatch(if |matching| == 1 && !HasValidFormat(matching[0]) then Some(matching[0]) else None))
    else if |compatible| > 1 then Err(Ambiguous(AllOptions(compatible, request)))
    else
      var options := Options(compatible[0], MatchingFormats(compatible[0], request));
      if |options| > 1 then Err(Ambiguous(options)) else Ok(options)
  }

  /** select_candidates for a port filter: every matching flow, or the first one that cannot be resolved. */
  function SelectEach(matching: seq<FlowCandidate>, request: Request): Selected
    requires WellShaped(matching)
  {
    if matching == [] then Ok([])
    else
      match SelectEach(matching[..|matching| - 1], request)
      case Err(e) => Err(e)
      case Ok(resolved) =>
        var last := matching[|matching| - 1];
        var formats := MatchingFormats(last, request);
        if formats == [] then Err(FormatMismatch(Some(last)))
        else if |formats| > 1 then Err(Ambiguous(Options(last, formats)))
        else Ok(resolved + Options(last, formats))
  }

  function Select(result: DiscoveryResult, selector: FlowSelector, request: Request): Selected
    requires WellShaped(result.candidates)
  {
    if result.candidateOverflow > 0 then Err(CandidateLimitExceeded)
    else
      var matching := MatchingCandidates(result.candidates, selector);
      if matching == [] then Err(NothingMatches)
      else if selector.IsPortFilter() then SelectEach(matching, request)
      else SelectOne(matching, request)
  }

  lemma SelectEachStep(matching: seq<FlowCandidate>, request: Request, n: nat)
    requires WellShaped(matching) && n < |matching|
    ensures var c := matching[n];
            var formats := MatchingFormats(c, request);
            match SelectEach(matching[..n], request)
            case Err(e) => SelectEach(matching[..n + 1], request) == Err(e)
            case Ok(resolved) =>
              SelectEach(matching[..n + 1], request)
              == if formats == [] then Err(FormatMismatch(Some(c)))
                 else if |formats| > 1 then Err(Ambiguous(Options(c, formats)))
                 else Ok(resolved + [SelectionOf(c, formats[0])])
  {
    hide MatchingFormats;
    assert matching[..n + 1][..n] == matching[..n];
    var formats := MatchingFormats(matching[n], request);
    assert |formats| == 1 ==> Options(matching[n], formats) == [SelectionOf(matching[n], formats[0])];
  }

  lemma {:induction false} SelectEachStops(matching: seq<FlowCandidate>, request: Request, n: nat)
    requires WellShaped(matching) && n <= |matching| && SelectEach(matching[..n], request).Err?
    ensures SelectEach(matching, request) == SelectEach(matching[..n], request)
    decreases |matching| - n
  {
    hide SelectEach;
    if n < |matching| {
      SelectEachStep(matching, request, n);
      SelectEachStops(matching, request, n + 1);
    } else {
      assert matching[..n] == matching;
    }
  }

  /** select_candidates. */
  method SelectCandidates(result: DiscoveryResult, selector: FlowSelector, request: Request) returns (r: Selected)
    requires WellShaped(result.candidates)
    ensures r == Select(result, selector, request)
  {
    hide SelectEach, SelectOne;
    if result.candidateOverflow > 0 {
      return Err(CandidateLimitExceeded);
    }
    var matching := MatchingCandidates(result.candidates, selector);
    if matching == [] {
      return Err(NothingMatches);
    }
    if selector.IsPortFilter() {
      var resolved: seq<SelectedFlow> := [];
      NothingToResolve(request);
      for i := 0 to |matching|
        invariant SelectEach(matching[..i], request) == Ok(resolved)
      {
        var candidate := matching[i];
        var formats := MatchingFormats(candidate, request);
        SelectEachStep(matching, request, i);
        if formats == [] {
          SelectEachStops(matching, request, i + 1);
          return Err(FormatMismatch(Some(candidate)));
        }
        if |formats| > 1 {
          SelectEachStops(matching, request, i + 1);
          return Err(Ambiguous(Options(candidate, formats)));
        }
        resolved := resolved + [SelectionOf(candidate, formats[0])];
      }
      assert matching[..|matching|] == matching;
      return Ok(resolved);
    }
    return SelectOne(matching, request);
  }

  lemma NothingToResolve(request: Request)
    ensures SelectEach([], request) == Ok([])
  {
  }

  // ---------------------------------------------------------------------------------------------
  // Selection is exact
  // ---------------------------------------------------------------------------------------------

  /** The flow's samples all validated in a format that fits the request. */
  ghost predicate Fits(c: FlowCandidate, request: Request, format: Format) {
    |c.formats| == |FORMATS|
    && exists i :: 0 <= i < |FORMATS| && FORMATS[i] == format && c.formats[i].IsValid() && Wanted(request, format)
  }

  /** Exactly one format fits. */
  ghost predicate FitsOnly(c: FlowCandidate, request: Request, format: Format) {
    Fits(c, request, format) && forall f: Format | Fits(c, request, f) :: f == format
  }

  ghost predicate HasFit(c: FlowCandidate, request: Request) {
    exists f: Format :: Fits(c, request, f)
  }

  /** Either nothing fits or more than one format does. */
  ghost predicate Unresolved(c: FlowCandidate, request: Request) {
    forall f: Format :: !FitsOnly(c, request, f)
  }

  ghost predicate FitsBelow(c: FlowCandidate, request: Request, format: Format, n: nat)
    requires n <= |FORMATS| == |c.formats|
  {
    exists i :: 0 <= i < n && FORMATS[i] == format && c.formats[i].IsValid() && Wanted(request, format)
  }

  predicate NoRepeats(formats: seq<Format>) {
    forall i, j | 0 <= i < j < |formats| :: formats[i] != formats[j]
  }

  lemma {:induction false} FormatsUpTo(c: FlowCandidate, request: Request, n: nat)
    requires n <= |FORMATS| == |c.formats|
    ensures forall f :: f in MatchingFormatsUpTo(c, request, n) <==> FitsBelow(c, request, f, n)
    ensures NoRepeats(MatchingFormatsUpTo(c, request, n))
  {
    if n > 0 {
      hide Evidence.IsValid, Wanted;
      FormatsUpTo(c, request, n - 1);
      FormatPrefix(n - 1);
      var front, formats := MatchingFormatsUpTo(c, request, n - 1), MatchingFormatsUpTo(c, request, n);
      forall f ensures f in formats <==> FitsBelow(c, request, f, n) {
        if FitsBelow(c, request, f, n) && !FitsBelow(c, request, f, n - 1) {
          var i :| 0 <= i < n && FORMATS[i] == f && c.formats[i].IsValid() && Wanted(request, f);
          assert i == n - 1;
        }
      }
      NotFitYet(c, request, n - 1);
    }
  }

  lemma NotFitYet(c: FlowCandidate, request: Request, n: nat)
    requires n < |FORMATS| == |c.formats|
    ensures !FitsBelow(c, request, FORMATS[n], n)
  {
    FormatPrefix(n);
  }

  lemma FormatsFit(c: FlowCandidate, request: Request)
    requires |c.formats| == |FORMATS|
    ensures forall f :: f in MatchingFormats(c, request) <==> Fits(c, request, f)
    ensures NoRepeats(MatchingFormats(c, request))
  {
    hide MatchingFormatsUpTo, Evidence.IsValid, Wanted;
    FormatsUpTo(c, request, |FORMATS|);
    forall f ensures Fits(c, request, f) <==> FitsBelow(c, request, f, |FORMATS|) {
    }
  }

  lemma OneFormat(c: FlowCandidate, request: Request)
    requires |c.formats| == |FORMATS|
    ensures var formats := MatchingFormats(c, request);
            && (|formats| == 1 ==> FitsOnly(c, request, formats[0]))
            && (|formats| != 1 ==> Unresolved(c, request))
            && (formats == [] <==> !HasFit(c, request))
  {
    hide MatchingFormats, Fits;
    FormatsFit(c, request);
    var formats := MatchingFormats(c, request);
    if |formats| > 0 {
      assert formats[0] in formats;
    }
    if |formats| > 1 {
      assert formats[1] in formats;
    }
  }

  /** One selection for each matching flow, each with its only fitting format. */
  ghost predicate EachResolved(matching: seq<FlowCandidate>, request: Request, selected: seq<SelectedFlow>) {
    && |selected| == |matching|
    && forall i | 0 <= i < |matching| ::
         FitsOnly(matching[i], request, selected[i].format)
         && selected[i] == SelectionOf(matching[i], selected[i].format)
  }

  lemma {:induction false} SelectEachIff(matching: seq<FlowCandidate>, request: Request)
    requires WellShaped(matching)
    ensures SelectEach(matching, request).Ok? ==> EachResolved(matching, request, SelectEach(matching, request).value)
    ensures SelectEach(matching, request).Err? ==>
              exists i :: 0 <= i < |matching| && Unresolved(matching[i], request)
  {
    hide SelectEach, FitsOnly, MatchingFormats, Unresolved;
    if matching == [] {
      NothingToResolve(request);
      assert matching == [];
    } else {
      var n := |matching| - 1;
      assert matching[..n + 1] == matching && matching[n] in matching;
      SelectEachIff(matching[..n], request);
      SelectEachStep(matching, request, n);
      OneFormat(matching[n], request);
      if SelectEach(matching[..n], request).Err? {
        var i :| 0 <= i < n && Unresolved(matching[..n][i], request);
        assert matching[i] == matching[..n][i];
      }
    }
  }

  /** A port filter selects exactly when some flow matches and every matching flow has exactly one fitting format. */
  lemma PortSelectionExact(result: DiscoveryResult, selector: FlowSelector, request: Request)
    requires WellShaped(result.candidates) && result.candidateOverflow == 0 && selector.IsPortFilter()
    ensures var r, matching := Select(result, selector, request), MatchingCandidates(result.candidates, selector);
            && (r.Ok? <==> matching != []
                           && forall c | c in matching :: exists f: Format :: FitsOnly(c, request, f))
            && (r.Ok? ==> EachResolved(matching, request, r.value))
  {
    hide SelectEach, SelectOne, FitsOnly, MatchingCandidates;
    var matching := MatchingCandidates(result.candidates, selector);
    SelectEachIff(matching, request);
    if matching != [] {
      var r := SelectEach(matching, request);
      if r.Ok? {
        forall c | c in matching ensures exists f: Format :: FitsOnly(c, request, f) {
          var i :| 0 <= i < |matching| && matching[i] == c;
          assert FitsOnly(matching[i], request, r.value[i].format);
        }
      } else {
        var i :| 0 <= i < |matching| && Unresolved(matching[i], request);
        assert matching[i] in matching;
      }
    }
  }

  /** A matching flow with a fitting format. */
  ghost predicate IsOption(
    result: DiscoveryResult, selector: FlowSelector, request: Request, c: FlowCandidate, f: Format)
  {
    c in result.candidates && selector.MatchesFlow(c.flow) && Fits(c, request, f)
  }

  ghost predicate OnlyOption(
    result: DiscoveryResult, selector: FlowSelector, request: Request, c: FlowCandidate, f: Format)
  {
    && IsOption(result, selector, request, c, f)
    && forall d, g | IsOption(result, selector, request, d, g) :: d == c && g == f
  }

  lemma CompatibleStep(front: seq<FlowCandidate>, last: FlowCandidate, request: Request)
    requires WellShaped(front + [last])
    ensures WellShaped(front) && |last.formats| == |FORMATS|
    ensures Compatible(front + [last], request)
            == if HasFit(last, request) then Compatible(front, request) + [last] else Compatible(front, request)
  {
    hide MatchingFormats, HasFit;
    assert (front + [last])[..|front|] == front && (front + [last])[|front|] == last;
    assert last in front + [last];
    OneFormat(last, request);
  }

  lemma {:induction false} CompatibleMembers(matching: seq<FlowCandidate>, request: Request)
    requires WellShaped(matching) && OnePerFlow(matching)
    ensures forall c :: c in Compatible(matching, request) <==> c in matching && HasFit(c, request)
    ensures OnePerFlow(Compatible(matching, request))
  {
    hide HasFit, OnePerFlow, Compatible;
    if matching == [] {
      NothingCompatible(request);
      assert matching == [];
    } else {
      var n := |matching| - 1;
      var front, last := matching[..n], matching[n];
      assert matching == front + [last];
      OnceFront(front, last);
      CompatibleStep(front, last, request);
      CompatibleMembers(front, request);
      OnceAppend(Compatible(front, request), last);
    }
  }

  lemma NothingCompatible(request: Request)
    ensures Compatible([], request) == [] && OnePerFlow([])
  {
  }

  lemma OnceFront(front: seq<FlowCandidate>, last: FlowCandidate)
    requires OnePerFlow(front + [last])
    ensures OnePerFlow(front) && forall c | c in front :: c.flow != last.flow
  {
    var all := front + [last];
    forall c | c in front ensures c.flow != last.flow {
      var i :| 0 <= i < |front| && front[i] == c;
      assert all[i].flow != all[|front|].flow;
    }
    forall i, j | 0 <= i < j < |front| ensures front[i].flow != front[j].flow {
      assert all[i].flow != all[j].flow;
    }
  }

  lemma OnceAppend(front: seq<FlowCandidate>, last: FlowCandidate)
    ensures OnePerFlow(front) && (forall c | c in front :: c.flow != last.flow) ==> OnePerFlow(front + [last])
  {
  }

  lemma {:induction false} MatchingOnce(candidates: seq<FlowCandidate>, selector: FlowSelector)
    requires OnePerFlow(candidates)
    ensures OnePerFlow(MatchingCandidates(candidates, selector))
  {
    hide FlowSelector.MatchesFlow;
    if candidates != [] {
      hide OnePerFlow;
      var front, last := candidates[..|candidates| - 1], candidates[|candidates| - 1];
      assert candidates == front + [last];
      OnceFront(front, last);
      MatchingOnce(front, selector);
      OnceAppend(MatchingCandidates(front, selector), last);
    }
  }

  /** Any other selector selects exactly when one pair of a matching flow and a fitting format exists. */
  lemma SingleSelectionExact(result: DiscoveryResult, selector: FlowSelector, request: Request)
    requires WellShaped(result.candidates) && OnePerFlow(result.candidates)
    requires result.candidateOverflow == 0 && !selector.IsPortFilter()
    ensures var r := Select(result, selector, request);
            && (r.Ok? <==> exists c, f :: OnlyOption(result, selector, request, c, f))
            && (r.Ok? ==>
                  && |r.value| == 1
                  && exists c :: OnlyOption(result, selector, request, c, r.value[0].format)
                       && r.value == [SelectionOf(c, r.value[0].format)])
  {
    hide HasFit, MatchingFormats, MatchingCandidates, Compatible, AllOptions, OnePerFlow, OnlyOption;
    hide FlowSelector.MatchesFlow, HasValidFormat;
    var matching := MatchingCandidates(result.candidates, selector);
    var compatible := Compatible(matching, request);
    var r := Select(result, selector, request);
    MatchingOnce(result.candidates, selector);
    CompatibleMembers(matching, request);
    if exists c, f :: OnlyOption(result, selector, request, c, f) {
      var c, f :| OnlyOption(result, selector, request, c, f);
      OnlyCompatible(result, selector, request, matching, compatible, c, f);
      assert c in compatible;
      assert c in matching;
      assert |Options(c, MatchingFormats(c, request))| == 1;
    }
    if r.Ok? {
      var c := compatible[0];
      assert c in compatible;
      OneFormat(c, request);
      var f := MatchingFormats(c, request)[0];
      OptionIsOnly(result, selector, request, matching, compatible, f);
      assert r.value == [SelectionOf(c, f)] && r.value[0].format == f;
    }
  }

  /** The one compatible flow with its one fitting format is the only option. */
  lemma OptionIsOnly(
    result: DiscoveryResult, selector: FlowSelector, request: Request, matching: seq<FlowCandidate>,
    compatible: seq<FlowCandidate>, f: Format)
    requires |compatible| == 1 && FitsOnly(compatible[0], request, f)
    requires forall c :: c in matching <==> c in result.candidates && selector.MatchesFlow(c.flow)
    requires forall c :: c in compatible <==> c in matching && HasFit(c, request)
    ensures OnlyOption(result, selector, request, compatible[0], f)
  {
    hide Fits, FlowSelector.MatchesFlow;
    assert compatible[0] in compatible;
    forall d, g | IsOption(result, selector, request, d, g) ensures d == compatible[0] && g == f {
      assert HasFit(d, request);
      assert d in compatible;
    }
  }

  lemma FormatOnly(result: DiscoveryResult, selector: FlowSelector, request: Request, c: FlowCandidate, f: Format)
    requires OnlyOption(result, selector, request, c, f)
    ensures FitsOnly(c, request, f)
  {
    hide Fits, FlowSelector.MatchesFlow;
    forall g: Format | Fits(c, request, g) ensures g == f {
      assert IsOption(result, selector, request, c, g);
    }
  }

  lemma OnlyCompatible(
    result: DiscoveryResult, selector: FlowSelector, request: Request, matching: seq<FlowCandidate>,
    compatible: seq<FlowCandidate>, c: FlowCandidate, f: Format)
    requires OnlyOption(result, selector, request, c, f) && OnePerFlow(compatible) && WellShaped(compatible)
    requires forall c :: c in matching <==> c in result.candidates && selector.MatchesFlow(c.flow)
    requires forall c :: c in compatible <==> c in matching && HasFit(c, request)
    ensures compatible == [c] && |MatchingFormats(c, request)| == 1
  {
    hide Fits, MatchingFormats, FlowSelector.MatchesFlow;
    assert IsOption(result, selector, request, c, f);
    assert HasFit(c, request);
    assert c in compatible;
    forall i | 0 <= i < |compatible| ensures compatible[i] == c {
      var d := compatible[i];
      assert d in compatible;
      var g: Format :| Fits(d, request, g);
      assert IsOption(result, selector, request, d, g);
    }
    SingleFlow(compatible, c);
    FormatOnly(result, selector, request, c, f);
    OneFormat(c, request);
  }

  lemma SingleFlow(compatible: seq<FlowCandidate>, c: FlowCandidate)
    requires OnePerFlow(compatible) && c in compatible && forall i | 0 <= i < |compatible| :: compatible[i] == c
    ensures compatible == [c]
  {
    assert compatible[0] == c;
    FlowsDiffer(compatible, 0, 1);
  }

  lemma FlowsDiffer(compatible: seq<FlowCandidate>, i: nat, j: nat)
    requires OnePerFlow(compatible)
    ensures i < j < |compatible| ==> compatible[i].flow != compatible[j].flow
  {
  }

  // ---------------------------------------------------------------------------------------------
  // Why nothing is selected
  // ---------------------------------------------------------------------------------------------

  /** A selection of one of these flows in one of its fitting formats. */
  ghost predicate Offers(compatible: seq<FlowCandidate>, request: Request, x: SelectedFlow) {
    exists c :: c in compatible && Fits(c, request, x.format) && x == SelectionOf(c, x.format)
  }

  lemma OptionsOf(c: FlowCandidate, request: Request, x: SelectedFlow)
    requires |c.formats| == |FORMATS|
    ensures x in Options(c, MatchingFormats(c, request))
            <==> Fits(c, request, x.format) && x == SelectionOf(c, x.format)
  {
    hide MatchingFormats, Fits;
    FormatsFit(c, request);
    var formats := MatchingFormats(c, request);
    if x in Options(c, formats) {
      var i :| 0 <= i < |formats| && Options(c, formats)[i] == x;
      assert formats[i] in formats;
    }
    if Fits(c, request, x.format) && x == SelectionOf(c, x.format) {
      var i :| 0 <= i < |formats| && formats[i] == x.format;
      assert Options(c, formats)[i] == x;
    }
  }

  lemma OffersStep(front: seq<FlowCandidate>, last: FlowCandidate, request: Request, x: SelectedFlow)
    ensures Offers(front + [last], request, x)
            <==> Offers(front, request, x) || (Fits(last, request, x.format) && x == SelectionOf(last, x.format))
  {
    hide Fits;
    if Offers(front + [last], request, x) {
      var c :| c in front + [last] && Fits(c, request, x.format) && x == SelectionOf(c, x.format);
      assert c in front || c == last;
    }
    if Offers(front, request, x) {
      var c :| c in front && Fits(c, request, x.format) && x == SelectionOf(c, x.format);
      assert c in front + [last];
    }
    assert last in front + [last];
  }

  lemma {:induction false} AllOptionsOffer(compatible: seq<FlowCandidate>, request: Request, x: SelectedFlow)
    requires WellShaped(compatible)
    ensures x in AllOptions(compatible, request) <==> Offers(compatible, request, x)
  {
    hide MatchingFormats, Offers, Fits, Options;
    if compatible == [] {
      NothingOffered(request, x);
      assert compatible == [];
    } else {
      var front, last := compatible[..|compatible| - 1], compatible[|compatible| - 1];
      assert compatible == front + [last];
      AllOptionsOffer(front, request, x);
      OptionsOf(last, request, x);
      OffersStep(front, last, request, x);
    }
  }

  lemma NothingOffered(request: Request, x: SelectedFlow)
    ensures !Offers([], request, x)
  {
  }

  lemma {:induction false} EnoughOptions(compatible: seq<FlowCandidate>, request: Request)
    requires WellShaped(compatible) && forall c | c in compatible :: HasFit(c, request)
    ensures |AllOptions(compatible, request)| >= |compatible|
  {
    hide MatchingFormats, HasFit;
    if compatible != [] {
      var front, last := compatible[..|compatible| - 1], compatible[|compatible| - 1];
      assert compatible == front + [last];
      EnoughOptions(front, request);
      OneFormat(last, request);
    }
  }

  lemma OffersAreOptions(
    result: DiscoveryResult, selector: FlowSelector, request: Request, compatible: seq<FlowCandidate>, x: SelectedFlow)
    requires forall c ::
               c in compatible <==> c in result.candidates && selector.MatchesFlow(c.flow) && HasFit(c, request)
    ensures Offers(compatible, request, x)
            <==> exists c :: IsOption(result, selector, request, c, x.format) && x == SelectionOf(c, x.format)
  {
    hide Fits, FlowSelector.MatchesFlow;
    if Offers(compatible, request, x) {
      var c :| c in compatible && Fits(c, request, x.format) && x == SelectionOf(c, x.format);
      assert IsOption(result, selector, request, c, x.format);
    }
    if exists c :: IsOption(result, selector, request, c, x.format) && x == SelectionOf(c, x.format) {
      var c :| IsOption(result, selector, request, c, x.format) && x == SelectionOf(c, x.format);
      assert HasFit(c, request);
    }
  }

  /**
   * Without a port filter the error tells why: no flow matches, flows match but no format fits, or there are several
   * options, and then the error lists exactly those.
   */
  lemma SelectionErrorsExact(result: DiscoveryResult, selector: FlowSelector, request: Request)
    requires WellShaped(result.candidates) && OnePerFlow(result.candidates)
    requires result.candidateOverflow == 0 && !selector.IsPortFilter()
    ensures var r := Select(result, selector, request);
            var matches := exists c :: c in result.candidates && selector.MatchesFlow(c.flow);
            && (r == Err(NothingMatches) <==> !matches)
            && (r.Err? && r.error.FormatMismatch? <==>
                  matches && forall c, f :: !IsOption(result, selector, request, c, f))
            && (r.Err? && r.error.Ambiguous? ==>
                  && |r.error.options| >= 2
                  && forall x :: x in r.error.options
                       <==> exists c ::
                              IsOption(result, selector, request, c, x.format) && x == SelectionOf(c, x.format))
  {
    hide HasFit, MatchingFormats, MatchingCandidates, Compatible, AllOptions, OnePerFlow, Fits, Offers, Options;
    hide FlowSelector.MatchesFlow, HasValidFormat;
    var matching := MatchingCandidates(result.candidates, selector);
    var compatible := Compatible(matching, request);
    var r := Select(result, selector, request);
    MatchingOnce(result.candidates, selector);
    CompatibleMembers(matching, request);
    MatchingSome(matching);
    NoOptionIff(result, selector, request, matching, compatible);
    if r.Err? && r.error.Ambiguous? {
      if |compatible| == 1 {
        SingleOptions(compatible[0], request);
        assert compatible == [compatible[0]];
      }
      EnoughOptions(compatible, request);
      forall x ensures x in r.error.options
                       <==> exists c ::
                              IsOption(result, selector, request, c, x.format) && x == SelectionOf(c, x.format)
      {
        AllOptionsOffer(compatible, request, x);
        OffersAreOptions(result, selector, request, compatible, x);
      }
    }
  }

  /** No format reads the samples of this flow, whatever is asked for. */
  ghost predicate Unreadable(c: FlowCandidate) {
    forall f: Format :: !Fits(c, Request(None, None), f)
  }

  lemma UnreadableIff(c: FlowCandidate)
    requires |c.formats| == |FORMATS|
    ensures Unreadable(c) <==> !HasValidFormat(c)
  {
    hide Evidence.IsValid;
    if HasValidFormat(c) {
      var i :| 0 <= i < |c.formats| && c.formats[i].IsValid();
      assert Fits(c, Request(None, None), FORMATS[i]);
    }
  }

  /**
   * Without a port filter a mismatch names a flow exactly when it is the only one that matches and no format reads its
   * samples; with several matching flows, or one that reads in a format not asked for, it names none.
   */
  lemma MismatchNames(result: DiscoveryResult, selector: FlowSelector, request: Request, c: FlowCandidate)
    requires WellShaped(result.candidates) && OnePerFlow(result.candidates)
    requires result.candidateOverflow == 0 && !selector.IsPortFilter()
    requires var r := Select(result, selector, request); r.Err? && r.error.FormatMismatch?
    ensures Select(result, selector, request).error.unresolved == Some(c)
            <==> (forall d :: d in result.candidates && selector.MatchesFlow(d.flow) <==> d == c) && Unreadable(c)
  {
    hide FlowSelector.MatchesFlow, HasValidFormat, Unreadable, Compatible, MatchingFormats, MatchingCandidates, Options;
    hide OnePerFlow;
    var matching := MatchingCandidates(result.candidates, selector);
    MatchingOnce(result.candidates, selector);
    MatchingSome(matching);
    if forall d :: d in matching <==> d == c {
      UnreadableIff(c);
      OnlyOne(matching, c);
    }
    if |matching| == 1 {
      UnreadableIff(matching[0]);
      assert matching == [matching[0]];
    }
  }

  lemma OnlyOne(matching: seq<FlowCandidate>, c: FlowCandidate)
    requires OnePerFlow(matching) && forall d :: d in matching <==> d == c
    ensures matching == [c]
  {
    assert c in matching;
    forall i | 0 <= i < |matching| ensures matching[i] == c {
      assert matching[i] in matching;
    }
    CandidatesApart(matching);
  }

  lemma CandidatesApart(candidates: seq<FlowCandidate>)
    requires OnePerFlow(candidates)
    ensures |candidates| > 1 ==> candidates[0] != candidates[1]
  {
  }

  lemma MatchingSome(matching: seq<FlowCandidate>)
    ensures matching != [] ==> matching[0] in matching
  {
  }

  lemma SingleOptions(c: FlowCandidate, request: Request)
    requires |c.formats| == |FORMATS|
    ensures WellShaped([c]) && AllOptions([c], request) == Options(c, MatchingFormats(c, request))
  {
    hide MatchingFormats, Options;
    assert [c][..0] == [];
    assert AllOptions([], request) == [];
  }

  lemma NoOptionIff(
    result: DiscoveryResult, selector: FlowSelector, request: Request, matching: seq<FlowCandidate>,
    compatible: seq<FlowCandidate>)
    requires forall c :: c in matching <==> c in result.candidates && selector.MatchesFlow(c.flow)
    requires forall c :: c in compatible <==> c in matching && HasFit(c, request)
    ensures compatible == [] <==> forall c, f :: !IsOption(result, selector, request, c, f)
  {
    hide Fits, FlowSelector.MatchesFlow;
    if compatible == [] {
      forall c, f ensures !IsOption(result, selector, request, c, f) {
        if IsOption(result, selector, request, c, f) {
          FitMeans(c, request, f);
        }
      }
    } else {
      var c := compatible[0];
      assert c in compatible;
      var f: Format :| Fits(c, request, f);
      assert IsOption(result, selector, request, c, f);
    }
  }

  lemma FitMeans(c: FlowCandidate, request: Request, f: Format)
    ensures Fits(c, request, f) ==> HasFit(c, request)
  {
    hide Fits;
  }

  // ---------------------------------------------------------------------------------------------
  // Which flow a port filter fails on
  // ---------------------------------------------------------------------------------------------

  /** The first matching flow, in the order of the candidates, that does not have exactly one fitting format. */
  ghost predicate FirstUnresolved(
    candidates: seq<FlowCandidate>, selector: FlowSelector, request: Request, k: int)
  {
    && 0 <= k < |candidates| && selector.MatchesFlow(candidates[k].flow) && Unresolved(candidates[k], request)
    && forall j | 0 <= j < k && selector.MatchesFlow(candidates[j].flow) :: !Unresolved(candidates[j], request)
  }

  /** The error names the flow if nothing fits, and else lists exactly its fitting formats. */
  ghost predicate Blames(c: FlowCandidate, request: Request, error: SelectionError) {
    match error
    case FormatMismatch(unresolved) => unresolved == Some(c) && !HasFit(c, request)
    case Ambiguous(options) =>
      && |options| >= 2
      && forall x :: x in options <==> Fits(c, request, x.format) && x == SelectionOf(c, x.format)
    case _ => false
  }

  ghost predicate PortOutcome(
    candidates: seq<FlowCandidate>, selector: FlowSelector, request: Request, r: Selected)
  {
    match r
    case Ok(_) =>
      forall j | 0 <= j < |candidates| && selector.MatchesFlow(candidates[j].flow) ::
        !Unresolved(candidates[j], request)
    case Err(error) =>
      exists k :: FirstUnresolved(candidates, selector, request, k) && Blames(candidates[k], request, error)
  }

  lemma OneOutcome(c: FlowCandidate, request: Request)
    requires |c.formats| == |FORMATS|
    ensures var formats := MatchingFormats(c, request);
            && (|formats| == 1 <==> !Unresolved(c, request))
            && (formats == [] ==> Blames(c, request, FormatMismatch(Some(c))))
            && (|formats| > 1 ==> Blames(c, request, Ambiguous(Options(c, formats))))
  {
    hide MatchingFormats, Fits, Options;
    OneFormat(c, request);
    var formats := MatchingFormats(c, request);
    forall x ensures x in Options(c, formats) <==> Fits(c, request, x.format) && x == SelectionOf(c, x.format) {
      OptionsOf(c, request, x);
    }
  }

  lemma OutcomeStep(
    front: seq<FlowCandidate>, last: FlowCandidate, selector: FlowSelector, request: Request, before: Selected,
    r: Selected)
    requires PortOutcome(front, selector, request, before)
    requires before.Err? ==> r == before
    requires before.Ok? && !selector.MatchesFlow(last.flow) ==> r == before
    requires before.Ok? && selector.MatchesFlow(last.flow) ==>
               if r.Ok? then !Unresolved(last, request) else Unresolved(last, request) && Blames(last, request, r.error)
    ensures PortOutcome(front + [last], selector, request, r)
  {
    hide Unresolved, Blames, FlowSelector.MatchesFlow;
    var all := front + [last];
    if before.Err? {
      var k :| FirstUnresolved(front, selector, request, k) && Blames(front[k], request, before.error);
      assert FirstUnresolved(all, selector, request, k) && all[k] == front[k];
    } else if r.Err? {
      assert all[|front|] == last;
      assert FirstUnresolved(all, selector, request, |front|);
    }
  }

  lemma {:induction false} EachOutcome(candidates: seq<FlowCandidate>, selector: FlowSelector, request: Request)
    requires WellShaped(candidates)
    ensures PortOutcome(candidates, selector, request, SelectEach(MatchingCandidates(candidates, selector), request))
  {
    hide SelectEach, MatchingFormats, Unresolved, Blames, FlowSelector.MatchesFlow, Options, PortOutcome;
    if candidates == [] {
      NoOutcome(selector, request);
      assert candidates == [];
    } else {
      var front, last := candidates[..|candidates| - 1], candidates[|candidates| - 1];
      assert candidates == front + [last] && last in candidates;
      EachOutcome(front, selector, request);
      var matching := MatchingCandidates(front, selector);
      if selector.MatchesFlow(last.flow) {
        var more := matching + [last];
        assert more[..|matching|] == matching && more[..|matching| + 1] == more && more[|matching|] == last;
        SelectEachStep(more, request, |matching|);
        OneOutcome(last, request);
      } else {
        assert matching + [] == matching;
      }
      OutcomeStep(front, last, selector, request, SelectEach(matching, request),
                  SelectEach(MatchingCandidates(candidates, selector), request));
    }
  }

  lemma NoOutcome(selector: FlowSelector, request: Request)
    ensures PortOutcome([], selector, request, SelectEach(MatchingCandidates([], selector), request))
  {
  }

  /**
   * With a port filter the error tells why: no flow matches, or some matching flow is unresolved, and then it blames
   * the first of those.
   */
  lemma PortErrorsExact(result: DiscoveryResult, selector: FlowSelector, request: Request)
    requires WellShaped(result.candidates) && result.candidateOverflow == 0 && selector.IsPortFilter()
    ensures var r := Select(result, selector, request);
            if forall c | c in result.candidates :: !selector.MatchesFlow(c.flow) then r == Err(NothingMatches)
            else PortOutcome(result.candidates, selector, request, r)
  {
    hide SelectEach, SelectOne, FlowSelector.MatchesFlow, PortOutcome;
    EachOutcome(result.candidates, selector, request);
    MatchingSome(MatchingCandidates(result.candidates, selector));
  }
}
