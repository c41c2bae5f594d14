/** The desktop's walk over the phone's vault (vault.rs, list_all): one session a page, with the
    phone choosing every cursor. */
module VaultWalk {
  import opened Common

  const MAX_ITEMS := 4096

  /** The most items that a page can carry and still be decoded. */
  const MAX_PAGE_ITEMS := 32

  /** `Oversized` is the protocol error that names a payload's size. */
  datatype VaultError = Declined | Unavailable | Protocol(detail: string) | Oversized(size: nat)

  /** What one session brings: it may not open, not answer, or carry one page. */
  datatype Answer<T> = NoSession(error: VaultError) | NoPage(error: VaultError) | Page(items: seq<T>, next: string)

  /** A phone may answer differently each time: the number of the session counts too. */
  type Phone<T> = (nat, string) -> Answer<T>

  /** What the walk hears: what the phone answers, unless it cannot be decoded. */
  function Heard<T>(phone: Phone<T>, session: nat, cursor: string): Answer<T> {
    var answer := phone(session, cursor);
    if answer.Page? && |answer.items| > MAX_PAGE_ITEMS then NoPage(Oversized(|answer.items|)) else answer
  }

  const REPEATED := Protocol("the phone repeated a page cursor")
  const ENDLESS := Protocol("the vault listing did not end")

  /** The join of the pages read. */
  function Collected<T>(pages: seq<Answer<T>>): seq<T> {
    if pages == [] then []
    else
      var last := pages[|pages| - 1];
      Collected(pages[..|pages| - 1]) + (if last.Page? then last.items else [])
  }

  /** The cursor asked for in session `i`, when these pages came before. */
  function Cursor<T>(pages: seq<Answer<T>>, i: nat): string
    requires i <= |pages|
  {
    if i == 0 then "" else if pages[i - 1].Page? then pages[i - 1].next else ""
  }

  /** Pages that each made the walk go on: answers of this phone to the cursors of the pages
      before, none of them empty, too long to be decoded or asking for a cursor again, within the
      ceiling together. */
  ghost predicate WalkedOn<T(!new)>(phone: Phone<T>, pages: seq<Answer<T>>) {
    && (forall i :: 0 <= i < |pages| ==> pages[i] == phone(i, Cursor(pages, i)))
    && (forall i :: 0 <= i < |pages| ==> pages[i].Page? && 0 < |pages[i].items| <= 32 && pages[i].next != "")
    && (forall i, j :: 0 <= i < j <= |pages| ==> Cursor(pages, i) != Cursor(pages, j))
    && |Collected(pages)| <= 4096
  }

  /** How the walk ends with one more answer of the phone, if it does. */
  ghost predicate EndsWith<T>(pages: seq<Answer<T>>, answer: Answer<T>, result: Result<seq<T>, VaultError>) {
    match answer
    case NoSession(error) => result == Err(error)
    case NoPage(error) => result == Err(error)
    case Page(items, next) =>
      if |items| > 32 then result == Err(Oversized(|items|))
      else if next == "" then result == Ok(Collected(pages) + items)
      else if exists i :: 0 <= i <= |pages| && Cursor(pages, i) == next then
        result == Err(Protocol("the phone repeated a page cursor"))
      else
        && (items == [] || |Collected(pages)| + |items| > 4096)
        && result == Err(Protocol("the vault listing did not end"))
  }

  lemma CollectedSnoc<T>(pages: seq<Answer<T>>, page: Answer<T>)
    requires page.Page?
    ensures Collected(pages + [page]) == Collected(pages) + page.items
  {
    assert (pages + [page])[..|pages|] == pages;
  }

  lemma CursorsSoFar<T>(pages: seq<Answer<T>>, page: Answer<T>)
    requires page.Page?
    ensures forall i :: 0 <= i <= |pages| ==> Cursor(pages + [page], i) == Cursor(pages, i)
    ensures Cursor(pages + [page], |pages| + 1) == page.next
  {
  }

  lemma WalkGoesOn<T(!new)>(phone: Phone<T>, pages: seq<Answer<T>>, page: Answer<T>)
    requires WalkedOn(phone, pages) && page == phone(|pages|, Cursor(pages, |pages|))
    requires page.Page? && 0 < |page.items| <= MAX_PAGE_ITEMS && page.next != ""
    requires forall i :: 0 <= i <= |pages| ==> Cursor(pages, i) != page.next
    requires |Collected(pages)| + |page.items| <= MAX_ITEMS
    ensures WalkedOn(phone, pages + [page])
  {
    hide Cursor, Collected;
    var more := pages + [page];
    CollectedSnoc(pages, page);
    CursorsSoFar(pages, page);
    forall i | 0 <= i < |more| ensures more[i] == phone(i, Cursor(more, i)) {
      assert Cursor(more, i) == Cursor(pages, i);
    }
    forall i, j | 0 <= i < j <= |more| ensures Cursor(more, i) != Cursor(more, j) {
      assert Cursor(more, i) == Cursor(pages, i);
      if j < |more| {
        assert Cursor(more, j) == Cursor(pages, j);
      }
    }
  }

  /** The cursors that pages have asked to go on with. */
  ghost predicate Seen<T>(pages: seq<Answer<T>>, seen: set<string>) {
    forall c :: c in seen <==> exists i :: 1 <= i <= |pages| && Cursor(pages, i) == c
  }

  lemma SeenGrows<T>(pages: seq<Answer<T>>, page: Answer<T>, seen: set<string>)
    requires Seen(pages, seen) && page.Page?
    ensures Seen(pages + [page], seen + {page.next})
  {
    hide Cursor;
    var more := pages + [page];
    CursorsSoFar(pages, page);
    forall c ensures c in seen + {page.next} <==> exists i :: 1 <= i <= |more| && Cursor(more, i) == c {
      if c in seen {
        var i :| 1 <= i <= |pages| && Cursor(pages, i) == c;
        assert Cursor(more, i) == c;
      } else if c == page.next {
        assert Cursor(more, |more|) == c;
      }
    }
  }

  lemma SeenMeansAsked<T>(pages: seq<Answer<T>>, seen: set<string>, next: string)
    requires Seen(pages, seen) && next != ""
    ensures next in seen <==> exists i :: 0 <= i <= |pages| && Cursor(pages, i) == next
  {
    if i :| 0 <= i <= |pages| && Cursor(pages, i) == next {
      assert i >= 1;
    }
  }

  /** What goes over the wire: a session is opened, asked for one page, and hung up. */
  datatype Signal = Opened | Asked(cursor: string) | HungUp

  /** The first `n` sessions of a walk over these pages, one after another and each of them closed. */
  ghost predicate Sessions<T>(log: seq<Signal>, pages: seq<Answer<T>>, n: nat) {
    && n <= |pages| + 1 && |log| == 3 * n
    && forall i :: 0 <= i < n ==>
        log[3 * i] == Opened && log[3 * i + 1] == Asked(Cursor(pages, i)) && log[3 * i + 2] == HungUp
  }

  lemma NoPagesYet<T(!new)>(phone: Phone<T>)
    ensures WalkedOn(phone, []) && Collected<T>([]) == [] && Cursor<T>([], 0) == "" && Seen<T>([], {})
    ensures Sessions<T>([], [], 0)
  {
  }

  lemma OneSessionMore<T>(log: seq<Signal>, pages: seq<Answer<T>>)
    requires Sessions(log, pages, |pages|)
    ensures Sessions(log + [Opened] + [Asked(Cursor(pages, |pages|))] + [HungUp], pages, |pages| + 1)
  {
    hide Cursor;
  }

  lemma SessionsSoFar<T>(log: seq<Signal>, pages: seq<Answer<T>>, page: Answer<T>)
    requires Sessions(log, pages, |pages| + 1) && page.Page?
    ensures Sessions(log, pages + [page], |pages| + 1)
  {
    hide Cursor;
    CursorsSoFar(pages, page);
  }

  method ListAll<T(!new)>(phone: Phone<T>)
    returns (result: Result<seq<T>, VaultError>, log: seq<Signal>, ghost pages: seq<Answer<T>>)
    ensures Openings(log) == HangUps(log) <= 4097
    ensures forall i, j :: 0 <= i < j < |log| && log[i].Asked? && log[j].Asked? ==> log[i] != log[j]
    ensures WalkedOn(phone, pages) && EndsWith(pages, phone(|pages|, Cursor(pages, |pages|)), result)
    ensures result.Ok? ==> |result.value| <= 4128
    ensures Sessions(log, pages, |pages| + if phone(|pages|, Cursor(pages, |pages|)).NoSession? then 0 else 1)
  {
    hide WalkedOn, Cursor, Collected, Seen, Sessions, Openings, HangUps;
    NoPagesYet(phone);
    var items: seq<T>, cursor, seen: set<string> := [], "", {};
    log, pages := [], [];
    var session := 0;
    while true
      invariant WalkedOn(phone, pages) && Seen(pages, seen)
      invariant items == Collected(pages) && cursor == Cursor(pages, |pages|)
      invariant Sessions(log, pages, |pages|) && session == |pages| && |items| <= MAX_ITEMS
      decreases MAX_ITEMS - |items|
    {
      var answer := Heard(phone, session, cursor);
      session := session + 1;
      if answer.NoSession? {
        WalksAreBounded(phone, pages, log, |pages|);
        return Err(answer.error), log, pages;
      }
      OneSessionMore(log, pages);
      log := log + [Opened];
      log := log + [Asked(cursor)];
      log := log + [HungUp];
      WalksAreBounded(phone, pages, log, |pages| + 1);
      if answer.NoPage? {
        return Err(answer.error), log, pages;
      }
      var carried := |answer.items|;
      items := items + answer.items;
      if answer.next == "" {
        return Ok(items), log, pages;
      }
      SeenMeansAsked(pages, seen, answer.next);
      if answer.next in seen {
        return Err(REPEATED), log, pages;
      }
      SeenGrows(pages, answer, seen);
      seen := seen + {answer.next};
      if carried == 0 || |items| > MAX_ITEMS {
        return Err(ENDLESS), log, pages;
      }
      WalkGoesOn(phone, pages, answer);
      CollectedSnoc(pages, answer);
      CursorsSoFar(pages, answer);
      SessionsSoFar(log, pages, answer);
      pages := pages + [answer];
      cursor := answer.next;
    }
  }

  // ---- What a walk promises ----

  /** A walk that goes on has read at least an item a page, so it is short. */
  lemma {:induction false} PageCarriesItem<T>(pages: seq<Answer<T>>)
    requires forall i :: 0 <= i < |pages| ==> pages[i].Page? && pages[i].items != []
    ensures |pages| <= |Collected(pages)|
  {
    if pages != [] {
      PageCarriesItem(pages[..|pages| - 1]);
    }
  }

  /** How often a session was opened, and how often one was hung up. */
  function Openings(log: seq<Signal>): nat {
    if log == [] then 0 else Openings(log[..|log| - 1]) + if log[|log| - 1].Opened? then 1 else 0
  }

  function HangUps(log: seq<Signal>): nat {
    if log == [] then 0 else HangUps(log[..|log| - 1]) + if log[|log| - 1].HungUp? then 1 else 0
  }

  lemma CountSnoc(log: seq<Signal>, signal: Signal)
    ensures Openings(log + [signal]) == Openings(log) + if signal.Opened? then 1 else 0
    ensures HangUps(log + [signal]) == HangUps(log) + if signal.HungUp? then 1 else 0
  {
    assert (log + [signal])[..|log|] == log;
  }

  lemma {:induction false} SessionsBalance<T>(log: seq<Signal>, pages: seq<Answer<T>>, n: nat)
    requires Sessions(log, pages, n)
    ensures Openings(log) == HangUps(log) == n
    decreases n
  {
    hide Cursor;
    if n > 0 {
      var before := log[..3 * (n - 1)];
      SessionsBalance(before, pages, n - 1);
      var asked := Asked(Cursor(pages, n - 1));
      assert log[3 * (n - 1)] == Opened && log[3 * (n - 1) + 1] == asked && log[3 * (n - 1) + 2] == HungUp;
      assert log == before + [Opened] + [asked] + [HungUp];
      CountSnoc(before + [Opened] + [asked], HungUp);
      CountSnoc(before + [Opened], asked);
      CountSnoc(before, Opened);
    }
  }

  /** Against any phone: every session opened is hung up, at most 4097 of them are opened, and no
      cursor is asked for twice. */
  lemma {:induction false} WalksAreBounded<T(!new)>(phone: Phone<T>, pages: seq<Answer<T>>, log: seq<Signal>, n: nat)
    requires WalkedOn(phone, pages) && Sessions(log, pages, n)
    ensures Openings(log) == HangUps(log) <= 4097
    ensures forall i, j :: 0 <= i < j < |log| && log[i].Asked? && log[j].Asked? ==> log[i] != log[j]
  {
    hide Openings, HangUps;
    PageCarriesItem(pages);
    SessionsBalance(log, pages, n);
    forall i, j | 0 <= i < j < |log| && log[i].Asked? && log[j].Asked? ensures log[i] != log[j] {
      AskedInSession(log, pages, n, i);
      AskedInSession(log, pages, n, j);
      assert Cursor(pages, i / 3) != Cursor(pages, j / 3);
    }
  }

  lemma AskedInSession<T>(log: seq<Signal>, pages: seq<Answer<T>>, n: nat, i: nat)
    requires Sessions(log, pages, n) && i < |log| && log[i].Asked?
    ensures i % 3 == 1 && i / 3 < n && log[i] == Asked(Cursor(pages, i / 3))
  {
    hide Cursor;
    var s := i / 3;
    assert log[3 * s] == Opened && log[3 * s + 2] == HungUp;
  }

  // ---- How long a list can be returned ----

  /** This walk over the phone returns a list. */
  ghost predicate Returns<T(!new)>(phone: Phone<T>, pages: seq<Answer<T>>, items: seq<T>) {
    WalkedOn(phone, pages) && EndsWith(pages, phone(|pages|, Cursor(pages, |pages|)), Ok(items))
  }

  function Copies<T>(item: T, n: nat): (r: seq<T>)
    ensures |r| == n
  {
    seq(n, _ => item)
  }

  /** Some page under a cursor of each length. */
  function FullPage<T>(item: T, i: nat): Answer<T> {
    Page(Copies(item, MAX_PAGE_ITEMS), Copies('c', i + 1))
  }

  function FullPages<T>(item: T, n: nat): (r: seq<Answer<T>>)
    ensures |r| == n && forall i :: 0 <= i < n ==> r[i] == FullPage(item, i)
  {
    if n == 0 then [] else FullPages(item, n - 1) + [FullPage(item, n - 1)]
  }

  /** A phone with this many full pages and then a last one. */
  function Pager<T>(item: T, full: nat, last: seq<T>): Phone<T> {
    (_, cursor: string) => if |cursor| < full then FullPage(item, |cursor|) else Page(last, "")
  }

  lemma {:induction false} FullPagesHold<T>(item: T, n: nat)
    ensures Collected(FullPages(item, n)) == Copies(item, MAX_PAGE_ITEMS * n)
  {
    if n > 0 {
      FullPagesHold(item, n - 1);
      CollectedSnoc(FullPages(item, n - 1), FullPage(item, n - 1));
    }
  }

  lemma FullPageAsks<T>(item: T, n: nat, i: nat)
    requires i <= n
    ensures Cursor(FullPages(item, n), i) == Copies('c', i)
  {
    hide FullPages;
  }

  lemma {:induction false} PagerWalks<T(!new)>(item: T, n: nat, full: nat, last: seq<T>)
    requires n <= full && MAX_PAGE_ITEMS * full <= MAX_ITEMS
    ensures WalkedOn(Pager(item, full, last), FullPages(item, n))
  {
    hide WalkedOn, Cursor, Collected;
    var phone := Pager(item, full, last);
    if n == 0 {
      NoPagesYet(phone);
    } else {
      var before := FullPages(item, n - 1);
      PagerWalks(item, n - 1, full, last);
      FullPageAsks(item, n - 1, n - 1);
      assert phone(n - 1, Copies('c', n - 1)) == FullPage(item, n - 1);
      forall i | 0 <= i <= |before| ensures Cursor(before, i) != Copies('c', n) {
        FullPageAsks(item, n - 1, i);
      }
      FullPagesHold(item, n - 1);
      WalkGoesOn(phone, before, FullPage(item, n - 1));
    }
  }

  /** Full pages, as many as needed, and then a last one that is not empty unless the list is. */
  lemma ListOf<T(!new)>(item: T, n: nat) returns (phone: Phone<T>, pages: seq<Answer<T>>)
    requires n <= MAX_ITEMS + MAX_PAGE_ITEMS
    ensures Returns(phone, pages, Copies(item, n))
  {
    hide WalkedOn, Cursor, Collected, FullPages;
    var full := if n == 0 then 0 else (n - 1) / MAX_PAGE_ITEMS;
    var last := Copies(item, n - MAX_PAGE_ITEMS * full);
    phone, pages := Pager(item, full, last), FullPages(item, full);
    PagerWalks(item, full, full, last);
    FullPagesHold(item, full);
    FullPageAsks(item, full, full);
    assert Copies(item, MAX_PAGE_ITEMS * full) + last == Copies(item, n);
  }

  /** The last page is not held to the ceiling: a walk can return a list of any length up to that of
      the ceiling and a page together, and no longer one. */
  lemma {:induction false} ReturnedLengths<T(!new)>(item: T, n: nat)
    ensures (exists phone: Phone<T>, pages, items :: Returns(phone, pages, items) && |items| == n)
       <==> n <= 4128
  {
    if n <= MAX_ITEMS + MAX_PAGE_ITEMS {
      var phone, pages := ListOf(item, n);
      assert Returns(phone, pages, Copies(item, n));
    }
  }

  /** A phone that cuts a list into pages under cursors of its own. */
  ghost predicate Serves<T(!new)>(phone: Phone<T>, cuts: seq<seq<T>>, cursors: seq<string>) {
    && |cursors| == |cuts| > 0 && cursors[0] == ""
    && (forall i, j :: 0 <= i < j < |cursors| ==> cursors[i] != cursors[j])
    && forall session: nat, i :: 0 <= i < |cuts| ==>
        phone(session, cursors[i]) == Page(cuts[i], if i + 1 < |cuts| then cursors[i + 1] else "")
  }

  lemma PageServed<T(!new)>(phone: Phone<T>, cuts: seq<seq<T>>, cursors: seq<string>, session: nat, i: nat)
    requires Serves(phone, cuts, cursors) && i < |cuts|
    ensures |cursors| == |cuts| && cursors[0] == "" && (i > 0 ==> cursors[i] != "")
    ensures phone(session, cursors[i]) == Page(cuts[i], if i + 1 < |cuts| then cursors[i + 1] else "")
  {
  }

  lemma PageWalked<T(!new)>(phone: Phone<T>, pages: seq<Answer<T>>, i: nat)
    requires WalkedOn(phone, pages) && i < |pages|
    ensures pages[i] == phone(i, Cursor(pages, i))
    ensures pages[i].Page? && 0 < |pages[i].items| <= MAX_PAGE_ITEMS && pages[i].next != ""
    ensures Cursor(pages, i + 1) == pages[i].next
  {
  }

  /** A walk over such a phone has read its first pages. */
  lemma {:induction false} WalkFollowsCuts<T(!new)>(phone: Phone<T>, cuts: seq<seq<T>>, cursors: seq<string>,
                                                    pages: seq<Answer<T>>, n: nat)
    requires Serves(phone, cuts, cursors) && WalkedOn(phone, pages) && n <= |pages|
    ensures n < |cuts| == |cursors| && Cursor(pages, n) == cursors[n]
    ensures Collected(pages[..n]) == Concat(cuts[..n])
    ensures forall i :: 0 <= i < n ==> 0 < |cuts[i]| <= MAX_PAGE_ITEMS
    decreases n
  {
    hide WalkedOn, Cursor;
    if n == 0 {
      FirstCursor(phone, cuts, cursors, pages);
    } else {
      hide Collected, Concat, Serves;
      WalkFollowsCuts(phone, cuts, cursors, pages, n - 1);
      PageWalked(phone, pages, n - 1);
      PageServed(phone, cuts, cursors, n - 1, n - 1);
      CollectedSnoc(pages[..n - 1], pages[n - 1]);
      assert pages[..n] == pages[..n - 1] + [pages[n - 1]];
      ConcatSnoc(cuts[..n - 1], cuts[n - 1]);
      assert cuts[..n] == cuts[..n - 1] + [cuts[n - 1]];
    }
  }

  lemma FirstCursor<T(!new)>(phone: Phone<T>, cuts: seq<seq<T>>, cursors: seq<string>, pages: seq<Answer<T>>)
    requires Serves(phone, cuts, cursors)
    ensures 0 < |cuts| == |cursors| && Cursor(pages, 0) == cursors[0]
  {
  }

  lemma {:induction false} ConcatGrows<T>(cuts: seq<seq<T>>, n: nat, m: nat)
    requires n <= m <= |cuts|
    ensures |Concat(cuts[..n])| <= |Concat(cuts[..m])|
    decreases m
  {
    if n < m {
      ConcatGrows(cuts, n, m - 1);
      ConcatSnoc(cuts[..m - 1], cuts[m - 1]);
      assert cuts[..m] == cuts[..m - 1] + [cuts[m - 1]];
    }
  }

  /** Against a phone that pages a list, the walk returns that list exactly when every page can be
      decoded, only the last one may be empty, and what comes before it is within the ceiling. */
  lemma {:induction false} FaithfulPhoneIsRead<T(!new)>(phone: Phone<T>, cuts: seq<seq<T>>, cursors: seq<string>,
                                     pages: seq<Answer<T>>, result: Result<seq<T>, VaultError>)
    requires Serves(phone, cuts, cursors) && WalkedOn(phone, pages)
    requires EndsWith(pages, phone(|pages|, Cursor(pages, |pages|)), result)
    ensures result == Ok(Concat(cuts))
      <==> && (forall i :: 0 <= i < |cuts| ==> |cuts[i]| <= 32)
           && (forall i :: 0 <= i < |cuts| - 1 ==> cuts[i] != [])
           && |Concat(cuts[..|cuts| - 1])| <= 4096
    ensures result.Ok? ==> result == Ok(Concat(cuts))
  {
    hide WalkedOn, Cursor, Collected, Concat, Serves;
    var n, last := |pages|, |cuts| - 1;
    WalkFollowsCuts(phone, cuts, cursors, pages, n);
    assert pages[..n] == pages;
    ConcatSnoc(cuts[..n], cuts[n]);
    assert cuts[..n + 1] == cuts[..n] + [cuts[n]];
    PageServed(phone, cuts, cursors, n, n);
    WalkedWithin(phone, pages);
    if n == last {
      assert cuts[..n + 1] == cuts;
    } else {
      PageServed(phone, cuts, cursors, n, n + 1);
      forall i | 0 <= i <= n ensures Cursor(pages, i) != cursors[n + 1] {
        WalkFollowsCuts(phone, cuts, cursors, pages, i);
        CursorsDiffer(phone, cuts, cursors, i, n + 1);
      }
      ConcatGrows(cuts, n + 1, last);
    }
  }

  lemma WalkedWithin<T(!new)>(phone: Phone<T>, pages: seq<Answer<T>>)
    requires WalkedOn(phone, pages)
    ensures |Collected(pages)| <= MAX_ITEMS
  {
  }

  lemma CursorsDiffer<T(!new)>(phone: Phone<T>, cuts: seq<seq<T>>, cursors: seq<string>, i: nat, j: nat)
    requires Serves(phone, cuts, cursors) && i < j < |cuts|
    ensures cursors[i] != cursors[j]
  {
  }
}
