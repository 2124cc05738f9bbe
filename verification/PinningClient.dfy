/** The client of the remote pinning service: one listing, fetched page by page. */
module PinningClient {
  import opened Sequences

  /** One entry of the service's listing. Created stamps are instants in nanoseconds. */
  datatype Pin = Pin(requestId: string, cid: string, name: string, created: int)

  predicate InWindow(p: Pin, before: Option<int>, after: Option<int>) {
    && (before.Some? ==> p.created < before.value)
    && (after.Some? ==> p.created > after.value)
  }

  function Within(before: Option<int>, after: Option<int>): Pin -> bool {
    p => InWindow(p, before, after)
  }

  /** What the service selects for a query, before it cuts the page. */
  function Selected(listing: seq<Pin>, before: Option<int>, after: Option<int>): seq<Pin> {
    Filter(listing, Within(before, after))
  }

  /** What the caller asked for: every pin later than `after`, in listing order. */
  function Since(listing: seq<Pin>, after: Option<int>): seq<Pin> {
    Selected(listing, None, after)
  }

  /** One page: the first `limit` of the selected pins. */
  function Page(listing: seq<Pin>, limit: nat, before: Option<int>, after: Option<int>): seq<Pin> {
    var s := Selected(listing, before, after);
    if |s| <= limit then s else s[..limit]
  }

  /** All pages of a selection put together: after a full page, go on strictly below its last stamp. */
  function Paged(selected: seq<Pin>, limit: nat): seq<Pin>
    requires limit >= 1
    decreases |selected|
  {
    if |selected| < limit then
      selected
    else
      var before := Some(selected[limit - 1].created);
      FilterDrops(selected, Within(before, None), limit - 1);
      selected[..limit] + Paged(Filter(selected, Within(before, None)), limit)
  }

  /** What the first n pages hold. */
  function FirstPages(selected: seq<Pin>, limit: nat, n: nat): seq<Pin>
    requires limit >= 1
    decreases |selected|
  {
    if n == 0 then []
    else if |selected| < limit then selected
    else
      var before := Some(selected[limit - 1].created);
      FilterDrops(selected, Within(before, None), limit - 1);
      selected[..limit] + FirstPages(Filter(selected, Within(before, None)), limit, n - 1)
  }

  /** How many queries it takes to see a short page. */
  function PageCount(selected: seq<Pin>, limit: nat): (n: nat)
    requires limit >= 1
    ensures n >= 1
    decreases |selected|
  {
    if |selected| < limit then 1
    else
      var before := Some(selected[limit - 1].created);
      FilterDrops(selected, Within(before, None), limit - 1);
      1 + PageCount(Filter(selected, Within(before, None)), limit)
  }

  lemma PagedFits(selected: seq<Pin>, limit: nat)
    requires limit >= 1 && |selected| <= limit
    requires NewestFirst(selected)
    ensures Paged(selected, limit) == selected
  {
    if |selected| == limit {
      var before := Some(selected[limit - 1].created);
      FilterNone(selected, Within(before, None));
      assert Paged([], limit) == [];
    }
  }

  predicate NewestFirst(ps: seq<Pin>) {
    forall i, j :: 0 <= i < j < |ps| ==> ps[i].created >= ps[j].created
  }

  /** No two pins with one stamp lie on either side of a page break. */
  predicate PageBreaksClean(ps: seq<Pin>, limit: nat)
    requires limit >= 1
    decreases |ps|
  {
    |ps| <= limit
    || (ps[limit - 1].created > ps[limit].created && PageBreaksClean(ps[limit..], limit))
  }

  /** What lies below the last stamp of a full page: everything after the page, less the stamp's own ties. */
  lemma AfterPage(ps: seq<Pin>, limit: nat)
    requires limit >= 1 && |ps| > limit && NewestFirst(ps)
    ensures var rest := Filter(ps, Within(Some(ps[limit - 1].created), None));
      && NewestFirst(rest) && |rest| <= |ps| - limit
      && (|rest| == |ps| - limit ==> rest == ps[limit..])
      && (rest == ps[limit..] <==> ps[limit - 1].created > ps[limit].created)
      && Paged(ps, limit) == ps[..limit] + Paged(rest, limit)
  {
    var f := Within(Some(ps[limit - 1].created), None);
    var head, tail := ps[..limit], ps[limit..];
    assert head + tail == ps;
    FilterConcat(head, tail, f);
    FilterNone(head, f);
    OlderIsSuffix(ps, ps[limit - 1].created);
    if ps[limit - 1].created > ps[limit].created {
      FilterAll(tail, f);
    } else {
      FilterDrops(tail, f, 0);
    }
  }

  /**
   * Against a newest-first listing the pages add up to the whole selection exactly when no
   * page break splits pins of equal stamp; a split always loses pins.
   */
  lemma {:induction false} PagedIsComplete(ps: seq<Pin>, limit: nat)
    requires limit >= 1 && NewestFirst(ps)
    ensures |Paged(ps, limit)| <= |ps|
    ensures Paged(ps, limit) == ps <==> PageBreaksClean(ps, limit)
    decreases |ps|
  {
    if |ps| <= limit {
      PagedFits(ps, limit);
    } else {
      var rest := Filter(ps, Within(Some(ps[limit - 1].created), None));
      AfterPage(ps, limit);
      PagedIsComplete(rest, limit);
      assert ps == ps[..limit] + ps[limit..];
      if Paged(ps, limit) == ps {
        assert Paged(rest, limit) == ps[limit..];
      }
    }
  }

  /** n pins of one stamp. */
  function SameStamp(n: nat): seq<Pin> {
    seq(n, i => Pin("request", "cid", "name", 1))
  }

  /** A page break between two pins of one stamp: of one more than a page holds, the last is never listed. */
  lemma PageBreakLosesPin(limit: nat)
    requires limit >= 1
    ensures NewestFirst(SameStamp(limit + 1)) && Paged(SameStamp(limit + 1), limit) == SameStamp(limit)
  {
    var ps := SameStamp(limit + 1);
    AfterPage(ps, limit);
    FilterNone(ps, Within(Some(1), None));
    PagedFits([], limit);
    assert ps[..limit] + [] == SameStamp(limit);
  }

  lemma {:induction false} OlderIsSuffix(ps: seq<Pin>, stamp: int)
    requires NewestFirst(ps)
    ensures NewestFirst(Filter(ps, Within(Some(stamp), None)))
  {
    if ps != [] {
      OlderIsSuffix(ps[1..], stamp);
      FilterMembers(ps[1..], Within(Some(stamp), None));
      var rest := Filter(ps[1..], Within(Some(stamp), None));
      forall j | 0 <= j < |rest| ensures rest[j].created <= ps[0].created {
        assert rest[j] in ps[1..];
      }
    }
  }

  /** Distinct stamps, newest first: every page break is clean, whatever the page limit. */
  lemma {:induction false} DistinctStampsAreClean(ps: seq<Pin>, limit: nat)
    requires limit >= 1
    requires forall i, j :: 0 <= i < j < |ps| ==> ps[i].created > ps[j].created
    ensures PageBreaksClean(ps, limit)
    decreases |ps|
  {
    if |ps| > limit {
      DistinctStampsAreClean(ps[limit..], limit);
    }
  }

  /** Narrowing `before` selects exactly the older part of what was selected already. */
  lemma SelectedNarrows(listing: seq<Pin>, before: Option<int>, after: Option<int>, stamp: int)
    requires before.Some? ==> stamp < before.value
    ensures Selected(listing, Some(stamp), after) == Filter(Selected(listing, before, after), Within(Some(stamp), None))
  {
    FilterCompose(listing, Within(before, after), Within(Some(stamp), None), Within(Some(stamp), after));
  }

  /** One turn of the loop: a short page ends it, a full one leaves strictly fewer pins to fetch. */
  lemma PageStep(listing: seq<Pin>, limit: nat, before: Option<int>, after: Option<int>)
    requires limit >= 1
    ensures var selected, page := Selected(listing, before, after), Page(listing, limit, before, after);
      if |page| < limit then Paged(selected, limit) == page && PageCount(selected, limit) == 1
      else
        var rest := Selected(listing, Some(page[limit - 1].created), after);
        && |page| == limit && |rest| < |selected| && Paged(selected, limit) == page + Paged(rest, limit)
        && PageCount(selected, limit) == 1 + PageCount(rest, limit)
        && forall n: nat :: n > 0 ==> FirstPages(selected, limit, n) == page + FirstPages(rest, limit, n - 1)
  {
    hide Selected, Within;
    var selected := Selected(listing, before, after);
    if |selected| >= limit {
      NarrowBelow(listing, before, after, limit - 1);
      assert Page(listing, limit, before, after) == selected[..limit];
    }
  }

  lemma NarrowBelow(listing: seq<Pin>, before: Option<int>, after: Option<int>, k: nat)
    requires k < |Selected(listing, before, after)|
    ensures var selected := Selected(listing, before, after);
      var rest := Selected(listing, Some(selected[k].created), after);
      rest == Filter(selected, Within(Some(selected[k].created), None)) && |rest| < |selected|
  {
    var selected := Selected(listing, before, after);
    SelectedInWindow(listing, before, after, selected[k]);
    SelectedNarrows(listing, before, after, selected[k].created);
    FilterDrops(selected, Within(Some(selected[k].created), None), k);
  }

  lemma SelectedInWindow(listing: seq<Pin>, before: Option<int>, after: Option<int>, p: Pin)
    requires p in Selected(listing, before, after)
    ensures p in listing && InWindow(p, before, after)
  {
    FilterMembers(listing, Within(before, after));
  }

  /**
   * The client's loop against a service that answers page queries on a fixed listing.
   * `failsAt` is the index of the first page query the service does not answer.
   */
  method ListPinsPaginated(listing: seq<Pin>, after: Option<int>, limit: nat, failsAt: Option<nat>)
    returns (pins: seq<Pin>, ok: bool)
    requires limit >= 1
    ensures ok <==> failsAt.None? || failsAt.value >= PageCount(Since(listing, after), limit)
    ensures pins == if ok then Paged(Since(listing, after), limit)
                    else FirstPages(Since(listing, after), limit, failsAt.value)
  {
    hide Paged, Page, Selected, PageCount, FirstPages;
    NoPages(Since(listing, after), limit);
    pins, ok := [], true;
    var before: Option<int> := None;
    var query := 0;
    while true
      invariant ok && (failsAt.Some? ==> query <= failsAt.value)
      invariant pins + Paged(Selected(listing, before, after), limit) == Paged(Since(listing, after), limit)
      invariant query + PageCount(Selected(listing, before, after), limit) == PageCount(Since(listing, after), limit)
      invariant failsAt.Some? ==>
        pins + FirstPages(Selected(listing, before, after), limit, failsAt.value - query) ==
        FirstPages(Since(listing, after), limit, failsAt.value)
      decreases |Selected(listing, before, after)|
    {
      ghost var selected := Selected(listing, before, after);
      NoPages(selected, limit);
      if failsAt == Some(query) {
        assert pins + [] == pins;
        return pins, false;
      }
      var results := Page(listing, limit, before, after);
      PageStep(listing, limit, before, after);
      if |results| < limit {
        return pins + results, true;
      }
      ghost var rest := Selected(listing, Some(results[limit - 1].created), after);
      assert (pins + results) + Paged(rest, limit) == pins + (results + Paged(rest, limit));
      if failsAt.Some? {
        ghost var more := FirstPages(rest, limit, failsAt.value - query - 1);
        assert (pins + results) + more == pins + (results + more);
      }
      pins := pins + results;
      before := Some(results[|results| - 1].created);
      query := query + 1;
    }
  }

  lemma NoPages(selected: seq<Pin>, limit: nat)
    requires limit >= 1
    ensures FirstPages(selected, limit, 0) == [] && PageCount(selected, limit) >= 1
  {
  }

  /** Distinct stamps: every pin later than `after` comes back exactly once, in order. */
  lemma PagingReturnsAll(listing: seq<Pin>, after: Option<int>, limit: nat)
    requires limit >= 1
    requires forall i, j :: 0 <= i < j < |listing| ==> listing[i].created > listing[j].created
    ensures Paged(Since(listing, after), limit) == Since(listing, after)
  {
    SinceIsDistinct(listing, after);
    DistinctStampsAreClean(Since(listing, after), limit);
    PagedIsComplete(Since(listing, after), limit);
  }

  lemma {:induction false} SinceIsDistinct(ps: seq<Pin>, after: Option<int>)
    requires forall i, j :: 0 <= i < j < |ps| ==> ps[i].created > ps[j].created
    ensures var r := Since(ps, after); forall i, j :: 0 <= i < j < |r| ==> r[i].created > r[j].created
  {
    if ps != [] {
      SinceIsDistinct(ps[1..], after);
      FilterMembers(ps[1..], Within(None, after));
      var rest := Since(ps[1..], after);
      forall j | 0 <= j < |rest| ensures rest[j].created < ps[0].created {
        assert rest[j] in ps[1..];
      }
    }
  }

  /** In a newest-first listing the pins later than `after` are a prefix, so their breaks are clean too. */
  lemma {:induction false} SinceIsPrefix(ps: seq<Pin>, after: Option<int>)
    requires NewestFirst(ps)
    ensures Since(ps, after) <= ps
  {
    if ps != [] {
      SinceIsPrefix(ps[1..], after);
      if !Within(None, after)(ps[0]) {
        FilterNone(ps[1..], Within(None, after));
      } else {
        assert ps == [ps[0]] + ps[1..];
      }
    }
  }

  lemma {:induction false} PrefixKeepsBreaks(prefix: seq<Pin>, ps: seq<Pin>, limit: nat)
    requires limit >= 1 && prefix <= ps && PageBreaksClean(ps, limit)
    ensures PageBreaksClean(prefix, limit)
    decreases |ps|
  {
    if |prefix| > limit {
      PrefixKeepsBreaks(prefix[limit..], ps[limit..], limit);
    }
  }

  /** A listing whose page breaks are clean is fetched whole, from any instant on. */
  lemma CleanListingIsFetched(listing: seq<Pin>, after: Option<int>, limit: nat)
    requires limit >= 1 && NewestFirst(listing) && PageBreaksClean(listing, limit)
    ensures Paged(Since(listing, after), limit) == Since(listing, after)
  {
    SinceIsPrefix(listing, after);
    PrefixKeepsBreaks(Since(listing, after), listing, limit);
    PagedIsComplete(Since(listing, after), limit);
  }
}
