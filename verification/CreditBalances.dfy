/** Credit balances computed in two ways, and the bound on them (internal/aip2p/credit_store.go). */
module CreditBalances {
  import opened CreditProof
  import opened CreditStore
  import opened Options
  import opened Sorting
  import opened Text

  datatype Balance = Balance(author: string, credits: nat, maxPossible: int, first: Option<int>, last: Option<int>)

  /** maxPossibleCredits: the windows from the first proof's to the present one. */
  function MaxPossible(first: int, now: int): int {
    var start := AlignToWindow(first);
    if now < start then 0 else (now - start) / WINDOW + 1
  }

  /** It counts the windows that have begun by now, from the one the first proof falls into; none before that one begins. */
  lemma WindowsBegun(first: int, now: int)
    ensures var n, start := MaxPossible(first, now), AlignToWindow(first);
            && n >= 0 && (n == 0 <==> now < start)
            && (n > 0 ==> start + (n - 1) * WINDOW <= now < start + n * WINDOW)
  {
    hide AlignToWindow;
  }

  // ---------- What a balance means ----------

  ghost function Authored(s: set<Proof>, author: string): set<Proof> {
    set p | p in s && Trim(p.author) == author
  }

  ghost function IdsOf(s: set<Proof>): set<string> {
    set p | p in s :: p.id
  }

  ghost predicate IsFirst(s: set<Proof>, first: Option<int>) {
    if s == {} then first.None?
    else first.Some? && (exists p <- s :: p.start == first.value) && (forall p <- s :: first.value <= p.start)
  }

  ghost predicate IsLast(s: set<Proof>, last: Option<int>) {
    if s == {} then last.None?
    else last.Some? && (exists p <- s :: p.start == last.value) && (forall p <- s :: p.start <= last.value)
  }

  /** The balance of an author over a set of stored proofs. */
  ghost predicate BalanceOf(s: set<Proof>, author: string, now: int, b: Balance) {
    && b.author == author && b.credits == |IdsOf(Authored(s, author))|
    && IsFirst(Authored(s, author), b.first) && IsLast(Authored(s, author), b.last)
    && b.maxPossible == if b.first.Some? then MaxPossible(b.first.value, now) else 0
  }

  /** Both ways of computing a balance agree, since a balance is determined by the stored proofs. */
  lemma BalancesAgree(s: set<Proof>, author: string, now: int, a: Balance, b: Balance)
    requires BalanceOf(s, author, now, a) && BalanceOf(s, author, now, b)
    ensures a == b
  {}

  lemma UnknownAuthor(s: set<Proof>, author: string, now: int, b: Balance)
    requires BalanceOf(s, author, now, b) && Authored(s, author) == {}
    ensures b == Balance(author, 0, 0, None, None)
  {
    assert IdsOf({}) == {};
  }

  // ---------- One author ----------

  function Earlier(first: Option<int>, start: int): Option<int> {
    if first.None? || start < first.value then Some(start) else first
  }

  function Later(last: Option<int>, start: int): Option<int> {
    if last.None? || start > last.value then Some(start) else last
  }

  lemma AddOne(s: set<Proof>, p: Proof, first: Option<int>, last: Option<int>)
    requires IsFirst(s, first) && IsLast(s, last)
    ensures IsFirst(s + {p}, Earlier(first, p.start)) && IsLast(s + {p}, Later(last, p.start))
    ensures IdsOf(s + {p}) == IdsOf(s) + {p.id}
  {
    assert p in s + {p};
    if s != {} {
      var q :| q in s && q.start == first.value;
      assert q in s + {p};
      var r :| r in s && r.start == last.value;
      assert r in s + {p};
    }
  }

  lemma AuthoredStep(proofs: seq<Proof>, k: nat, author: string)
    requires k < |proofs|
    ensures var before := Authored(Elements(proofs[..k]), author);
            Authored(Elements(proofs[..k + 1]), author) == if Trim(proofs[k].author) == author then before + {proofs[k]} else before
  {
    hide Trim;
    assert proofs[..k + 1] == proofs[..k] + [proofs[k]];
    assert Elements(proofs[..k + 1]) == Elements(proofs[..k]) + {proofs[k]};
  }

  lemma NothingAuthored(proofs: seq<Proof>)
    ensures forall author :: Authored(Elements(proofs[..0]), author) == {}
    ensures proofs[..|proofs|] == proofs && IdsOf({}) == {}
  {}

  /** GetBalanceResult on the cached proofs; `author` is trimmed. */
  method GetBalance(proofs: seq<Proof>, author: string, now: int) returns (b: Balance)
    ensures BalanceOf(Elements(proofs), author, now, b)
  {
    hide Trim, Authored, IdsOf, IsFirst, IsLast, AlignToWindow;
    NothingAuthored(proofs);
    FirstOfNone();
    var ids: set<string> := {};
    var first, last := None, None;
    for k := 0 to |proofs|
      invariant ids == IdsOf(Authored(Elements(proofs[..k]), author))
      invariant IsFirst(Authored(Elements(proofs[..k]), author), first)
      invariant IsLast(Authored(Elements(proofs[..k]), author), last)
    {
      AuthoredStep(proofs, k, author);
      if Trim(proofs[k].author) != author {
        continue;
      }
      AddOne(Authored(Elements(proofs[..k]), author), proofs[k], first, last);
      first, last := Earlier(first, proofs[k].start), Later(last, proofs[k].start);
      ids := ids + {proofs[k].id};
    }
    var max := if first.Some? then MaxPossible(first.value, now) else 0;
    return Balance(author, |ids|, max, first, last);
  }

  /** GetBalance: the balance over everything stored; a load that fails is passed over in silence and shows as no credits. */
  method StoredBalance(store: Store, author: string, clock: int, now: int) returns (b: Balance)
    requires store.Valid()
    modifies store`cached, store`byDate, store`dirty, store`loadedAt
    ensures store.Valid()
    ensures if old(store.Ready(clock)) || StoreReadable(store.codec, store.disk) then BalanceOf(AllProofs(store.disk), author, now, b)
            else b == Balance(author, 0, 0, None, None)
  {
    hide BalanceOf, DiskOk, CodecOk, AllProofs, StoreReadable;
    var ok := store.EnsureCache(clock);
    if !ok {
      return Balance(author, 0, 0, None, None);
    }
    b := GetBalance(store.cached, author, now);
  }

  lemma FirstOfNone()
    ensures IsFirst({}, None) && IsLast({}, None)
  {}

  // ---------- All authors ----------

  datatype Summary = Summary(first: int, last: int, ids: set<string>)

  ghost function AuthorsOf(s: set<Proof>): set<string> {
    set p | p in s :: Trim(p.author)
  }

  ghost predicate Summarizes(s: set<Proof>, author: string, m: Summary) {
    var mine := Authored(s, author);
    m.ids == IdsOf(mine) && IsFirst(mine, Some(m.first)) && IsLast(mine, Some(m.last))
  }

  lemma SummaryStep(s: set<Proof>, p: Proof, summaries: map<string, Summary>, author: string, item: Summary,
                    next: map<string, Summary>)
    requires summaries.Keys == AuthorsOf(s) && author == Trim(p.author)
    requires forall a <- summaries :: Summarizes(s, a, summaries[a])
    requires item == if author in summaries
                     then Summary(if p.start < summaries[author].first then p.start else summaries[author].first,
                                  if p.start > summaries[author].last then p.start else summaries[author].last,
                                  summaries[author].ids + {p.id})
                     else Summary(p.start, p.start, {p.id})
    requires next == summaries[author := item]
    ensures next.Keys == AuthorsOf(s + {p})
    ensures forall a <- next :: Summarizes(s + {p}, a, next[a])
  {
    hide Trim, IsFirst, IsLast, IdsOf;
    forall a | a in next
      ensures Summarizes(s + {p}, a, next[a])
    {
      if a == author {
        assert Authored(s + {p}, a) == Authored(s, a) + {p};
        if a in summaries {
          AddOne(Authored(s, a), p, Some(summaries[a].first), Some(summaries[a].last));
        } else {
          assert Authored(s, a) == {} by {
            assert forall q <- s :: Trim(q.author) in AuthorsOf(s);
          }
          FirstOfNone();
          NothingAuthored([]);
          AddOne({}, p, None, None);
        }
      } else {
        assert Authored(s + {p}, a) == Authored(s, a);
      }
    }
  }

  /** The summary loop of GetAllBalances. */
  method Summarize(proofs: seq<Proof>) returns (summaries: map<string, Summary>)
    ensures summaries.Keys == AuthorsOf(Elements(proofs))
    ensures forall a <- summaries :: Summarizes(Elements(proofs), a, summaries[a])
  {
    hide Trim, Summarizes;
    summaries := map[];
    for k := 0 to |proofs|
      invariant summaries.Keys == AuthorsOf(Elements(proofs[..k]))
      invariant forall a <- summaries :: Summarizes(Elements(proofs[..k]), a, summaries[a])
    {
      var p := proofs[k];
      var author := Trim(p.author);
      assert proofs[..k + 1] == proofs[..k] + [p];
      assert Elements(proofs[..k + 1]) == Elements(proofs[..k]) + {p};
      var item := Summary(p.start, p.start, {p.id});
      if author in summaries {
        var old_ := summaries[author];
        item := Summary(if p.start < old_.first then p.start else old_.first,
                        if p.start > old_.last then p.start else old_.last,
                        old_.ids + {p.id});
      }
      SummaryStep(Elements(proofs[..k]), p, summaries, author, item, summaries[author := item]);
      summaries := summaries[author := item];
    }
    assert proofs[..|proofs|] == proofs;
  }

  /** Largest balance first, then by author. */
  predicate BalanceLess(a: Balance, b: Balance) {
    a.credits > b.credits || (a.credits == b.credits && StringLess(a.author, b.author))
  }

  lemma BalanceOrder(s: set<Balance>)
    requires forall a, b :: a in s && b in s && a.author == b.author ==> a == b
    ensures StrictOrderOn(s, BalanceLess)
  {
    hide StringLess;
    forall a, b | a in s && b in s
      ensures !BalanceLess(a, a) && (a == b || BalanceLess(a, b) || BalanceLess(b, a))
    {
      StringLessTotal(a.author, b.author);
    }
    forall a, b, d | a in s && b in s && d in s && BalanceLess(a, b) && BalanceLess(b, d)
      ensures BalanceLess(a, d)
    {
      if StringLess(a.author, b.author) && StringLess(b.author, d.author) {
        StringLessTransitive(a.author, b.author, d.author);
      }
    }
  }

  ghost predicate Lists(balances: seq<Balance>, author: string) {
    exists k :: 0 <= k < |balances| && balances[k].author == author
  }

  /** The list GetAllBalances returns: one balance per author, in order. */
  ghost predicate AllBalances(s: set<Proof>, now: int, out: seq<Balance>) {
    && StrictlySorted(out, BalanceLess)
    && (forall k :: 0 <= k < |out| ==> out[k].author in AuthorsOf(s) && BalanceOf(s, out[k].author, now, out[k]))
    && (forall i, j :: 0 <= i < j < |out| ==> out[i].author != out[j].author)
    && (forall a <- AuthorsOf(s) :: Lists(out, a))
  }

  /** GetAllBalances: every entry is the same balance GetBalance computes. */
  method GetAllBalances(proofs: seq<Proof>, now: int) returns (out: seq<Balance>)
    ensures AllBalances(Elements(proofs), now, out)
  {
    hide Trim, AlignToWindow, AuthorsOf, BalanceOf, BalanceLess, Lists;
    var summaries := Summarize(proofs);
    ghost var s := Elements(proofs);
    var found: seq<Balance> := [];
    var authors := summaries.Keys;
    while authors != {}
      invariant authors <= summaries.Keys
      invariant forall k :: 0 <= k < |found| ==> found[k].author in summaries.Keys - authors && BalanceOf(s, found[k].author, now, found[k])
      invariant forall i, j :: 0 <= i < j < |found| ==> found[i].author != found[j].author
      invariant forall a :: a in summaries.Keys - authors ==> Lists(found, a)
      decreases authors
    {
      var author := Pick(authors);
      authors := authors - {author};
      var item := summaries[author];
      var b := Balance(author, |item.ids|, MaxPossible(item.first, now), Some(item.first), Some(item.last));
      SummaryIsBalance(s, author, item, now, b);
      ListsSnoc(found, b);
      found := found + [b];
    }
    assert forall i, j :: 0 <= i < j < |found| ==> found[i].author != found[j].author;
    BalanceOrder(Elements(found));
    out := Sort(found, BalanceLess);
    SortedBalances(s, now, found, out);
  }

  lemma ListsSnoc(balances: seq<Balance>, b: Balance)
    ensures forall a :: Lists(balances + [b], a) <==> Lists(balances, a) || a == b.author
  {
    var longer := balances + [b];
    assert longer[|balances|] == b;
    forall a | Lists(balances, a) ensures Lists(longer, a) {
      var k :| 0 <= k < |balances| && balances[k].author == a;
      assert longer[k] == balances[k];
    }
    forall a | Lists(longer, a) && a != b.author ensures Lists(balances, a) {
      var k :| 0 <= k < |longer| && longer[k].author == a;
      assert longer[k] == balances[k];
    }
  }

  lemma SummaryIsBalance(s: set<Proof>, author: string, item: Summary, now: int, b: Balance)
    requires Summarizes(s, author, item)
    requires b == Balance(author, |item.ids|, MaxPossible(item.first, now), Some(item.first), Some(item.last))
    ensures BalanceOf(s, author, now, b)
  {}

  lemma SortedBalances(s: set<Proof>, now: int, found: seq<Balance>, out: seq<Balance>)
    requires forall k :: 0 <= k < |found| ==> found[k].author in AuthorsOf(s) && BalanceOf(s, found[k].author, now, found[k])
    requires forall a <- AuthorsOf(s) :: Lists(found, a)
    requires StrictlySorted(out, BalanceLess) && Elements(out) == Elements(found)
    requires StrictOrderOn(Elements(found), BalanceLess)
    requires forall i, j :: 0 <= i < j < |found| ==> found[i].author != found[j].author
    ensures AllBalances(s, now, out)
  {
    hide AuthorsOf, BalanceOf, BalanceLess;
    SortedIsDistinct(out, BalanceLess);
    forall k | 0 <= k < |out| ensures out[k] in found { assert out[k] in Elements(out); }
    forall i, j | 0 <= i < j < |out| ensures out[i].author != out[j].author {
      assert out[i] in found && out[j] in found && out[i] != out[j];
    }
    forall a | a in AuthorsOf(s) ensures Lists(out, a) {
      var k :| 0 <= k < |found| && found[k].author == a;
      assert found[k] in Elements(out);
    }
  }

  // ---------- Credits add up to the stored proofs ----------

  function SumCredits(balances: seq<Balance>): nat {
    if balances == [] then 0 else SumCredits(balances[..|balances| - 1]) + balances[|balances| - 1].credits
  }

  ghost predicate InjectiveIds(c: Codec) {
    forall k, s, k', s' :: c.idOf(k, s) == c.idOf(k', s') ==> k == k' && s == s'
  }

  /** With collision-free ids no two stored proofs share an id, not even on different days. */
  lemma IdsAreUnique(c: Codec, disk: Disk, p: Proof, q: Proof)
    requires DiskOk(c, disk) && InjectiveIds(c)
    requires p in AllProofs(disk) && q in AllProofs(disk) && p.id == q.id
    ensures p == q
  {
    hide Trim, Norm, WindowOk;
    AllProofsAre(disk, p);
    AllProofsAre(disk, q);
    var d, i :| i in DayTable(disk, d) && DayTable(disk, d)[i] == p;
    var e, j :| j in DayTable(disk, e) && DayTable(disk, e)[j] == q;
    assert OfThatDay(c, DayTable(disk, d), d) && OfThatDay(c, DayTable(disk, e), e);
    DayTableKeyed(c, disk, d);
    DayTableKeyed(c, disk, e);
  }

  lemma {:induction false} DistinctIdsCount(s: set<Proof>)
    requires forall p, q :: p in s && q in s && p.id == q.id ==> p == q
    ensures |IdsOf(s)| == |s|
    decreases |s|
  {
    if s == {} {
      assert IdsOf(s) == {};
    } else {
      var p :| p in s;
      DistinctIdsCount(s - {p});
      assert IdsOf(s) == IdsOf(s - {p}) + {p.id};
      assert p.id !in IdsOf(s - {p});
    }
  }

  /** The proofs whose author has a balance in the list. */
  ghost function Covered(s: set<Proof>, balances: seq<Balance>): set<Proof> {
    set p | p in s && Lists(balances, Trim(p.author))
  }

  lemma {:induction false} CreditsOfAuthors(s: set<Proof>, now: int, balances: seq<Balance>)
    requires forall p, q :: p in s && q in s && p.id == q.id ==> p == q
    requires forall k :: 0 <= k < |balances| ==> BalanceOf(s, balances[k].author, now, balances[k])
    requires forall i, j :: 0 <= i < j < |balances| ==> balances[i].author != balances[j].author
    ensures SumCredits(balances) == |Covered(s, balances)|
    decreases |balances|
  {
    hide Trim, BalanceOf, IdsOf, Lists;
    if balances == [] {
      NobodyListed(s);
    } else {
      var init, last := balances[..|balances| - 1], balances[|balances| - 1];
      CreditsOfAuthors(s, now, init);
      CreditsAreIds(s, now, last);
      var mine := Authored(s, last.author);
      DistinctIdsCount(mine);
      assert balances == init + [last];
      ListsSnoc(init, last);
      assert Covered(s, balances) == Covered(s, init) + mine;
      NotListed(init, last.author);
      assert Covered(s, init) !! mine;
    }
  }

  lemma CreditsAreIds(s: set<Proof>, now: int, b: Balance)
    requires BalanceOf(s, b.author, now, b)
    ensures b.credits == |IdsOf(Authored(s, b.author))|
  {}

  lemma NobodyListed(s: set<Proof>)
    ensures Covered(s, []) == {}
  {}

  lemma NotListed(balances: seq<Balance>, author: string)
    requires forall k :: 0 <= k < |balances| ==> balances[k].author != author
    ensures !Lists(balances, author)
  {}

  /** Summed over all authors, the credits are the number of stored proofs. */
  lemma CreditsSumToProofs(c: Codec, disk: Disk, now: int, balances: seq<Balance>)
    requires DiskOk(c, disk) && InjectiveIds(c) && AllBalances(AllProofs(disk), now, balances)
    ensures SumCredits(balances) == |AllProofs(disk)|
  {
    hide Trim, DiskOk, BalanceOf, BalanceLess, StrictlySorted, AllProofs, Lists, Covered, InjectiveIds, SumCredits;
    var s := AllProofs(disk);
    forall p, q | p in s && q in s && p.id == q.id ensures p == q {
      IdsAreUnique(c, disk, p, q);
    }
    CreditsOfAuthors(s, now, balances);
    EveryoneCovered(s, now, balances);
  }

  lemma EveryoneCovered(s: set<Proof>, now: int, balances: seq<Balance>)
    requires AllBalances(s, now, balances)
    ensures Covered(s, balances) == s
  {
    hide Trim, BalanceOf, BalanceLess, StrictlySorted, Lists;
    forall p | p in s ensures Lists(balances, Trim(p.author)) {
      assert Trim(p.author) in AuthorsOf(s);
    }
  }

  // ---------- The bound ----------

  ghost function WindowsUpTo(first: int, n: nat): set<int> {
    set k: nat | 0 <= k <= n :: first + k * WINDOW
  }

  lemma {:induction false} WindowsCount(first: int, n: nat)
    ensures |WindowsUpTo(first, n)| <= n + 1
  {
    if n == 0 {
      assert WindowsUpTo(first, 0) == {first};
    } else {
      WindowsCount(first, n - 1);
      assert WindowsUpTo(first, n) == WindowsUpTo(first, n - 1) + {first + n * WINDOW};
    }
  }

  ghost function StartsOf(s: set<Proof>): set<int> {
    set p | p in s :: p.start
  }

  ghost function IdsAt(c: Codec, key: string, starts: set<int>): set<string> {
    set t | t in starts :: c.idOf(key, t)
  }

  lemma {:induction false} FewerIdsThanStarts(c: Codec, key: string, starts: set<int>)
    ensures |IdsAt(c, key, starts)| <= |starts|
    decreases |starts|
  {
    if starts == {} {
      assert IdsAt(c, key, starts) == {};
    } else {
      var t := SomeElement(starts);
      FewerIdsThanStarts(c, key, starts - {t});
      assert IdsAt(c, key, starts) == IdsAt(c, key, starts - {t}) + {c.idOf(key, t)};
    }
  }

  /** An author with one key and trimmed ids has at most one id per window. */
  lemma IdsByStart(c: Codec, s: set<Proof>, key: string)
    requires forall p <- s :: Norm(p.pubKey) == key && p.id == c.idOf(key, p.start)
    ensures |IdsOf(s)| <= |StartsOf(s)|
  {
    hide Norm;
    assert forall p <- s :: p.start in StartsOf(s);
    assert IdsOf(s) == IdsAt(c, key, StartsOf(s));
    FewerIdsThanStarts(c, key, StartsOf(s));
  }

  /** The premise of the bound: one key, ids stored trimmed, no window in the future. */
  ghost predicate Regular(c: Codec, s: set<Proof>, author: string, key: string, now: int) {
    forall p <- Authored(s, author) :: Norm(p.pubKey) == key && Trim(p.id) == p.id && p.start <= now
  }

  /** Such an author never has more credits than windows from its first proof to now. */
  lemma CreditsWithinBound(c: Codec, s: set<Proof>, author: string, key: string, now: int, b: Balance)
    requires forall p <- s :: Admissible(c, p)
    requires Regular(c, s, author, key, now) && BalanceOf(s, author, now, b)
    ensures b.credits <= b.maxPossible
  {
    hide Trim, Norm, AlignToWindow;
    var mine := Authored(s, author);
    IdsByStart(c, mine, key);
    if mine == {} {
      assert IdsOf(mine) == {};
    } else {
      var first := b.first.value;
      var f :| f in mine && f.start == first;
      assert AlignToWindow(first) == first && first <= now;
      var n: nat := (now - first) / WINDOW;
      forall t | t in StartsOf(mine) ensures t in WindowsUpTo(first, n) {
        var p :| p in mine && p.start == t;
        WindowIndex(first, t, now);
      }
      SubsetSize(StartsOf(mine), WindowsUpTo(first, n));
      WindowsCount(first, n);
    }
  }

  lemma WindowIndex(first: int, t: int, now: int)
    requires first == AlignToWindow(first) && t == AlignToWindow(t) && first <= t <= now
    ensures t in WindowsUpTo(first, (now - first) / WINDOW)
  {
    hide AlignToWindow;
    AlignIsFloor(first);
    AlignIsFloor(t);
    var i, j := first / WINDOW, t / WINDOW;
    assert first == i * WINDOW && t == j * WINDOW;
    var k: nat := j - i;
    assert t == first + k * WINDOW;
    assert k <= (now - first) / WINDOW;
  }

  /** Without trimmed ids the bound fails: validation trims the id but storage does not, so a proof stored again under
      its id with a space in front counts twice in one window. */
  lemma UntrimmedIdCountsTwice(c: Codec, p: Proof, b: Balance)
    requires Admissible(c, p) && Trim(p.id) == p.id
    requires var twin := p.(id := " " + p.id); BalanceOf({p, twin}, Trim(p.author), p.start, b)
    ensures Admissible(c, p.(id := " " + p.id))
    ensures b.credits == 2 && b.maxPossible == 1
  {
    var twin := p.(id := " " + p.id);
    SpaceInFront(p.id);
    hide Trim, Norm, AlignToWindow;
    var s, author := {p, twin}, Trim(p.author);
    assert Authored(s, author) == s;
    assert IdsOf(s) == {p.id, twin.id} by {
      assert p in s && twin in s;
    }
    assert |p.id| != |twin.id|;
    assert b.first == Some(p.start);
  }

  lemma SpaceInFront(s: string)
    ensures Trim(" " + s) == Trim(s)
  {
    assert (" " + s)[1..] == s;
  }
}
