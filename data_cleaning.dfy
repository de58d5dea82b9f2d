/** scripts/data_cleaning.py: the publisher-name normaliser `extract_domain` and
    the cleaning step that drops incomplete rows and adds `publisher_domain`. */
module DataCleaning {
  import opened Wrappers
  import opened Strings
  import opened News

  /** Python's `\w` on ASCII text. */
  predicate IsWordChar(c: char)
  {
    'a' <= c <= 'z' || 'A' <= c <= 'Z' || '0' <= c <= '9' || c == '_'
  }

  /** `str(name).lower().strip()` */
  function Normalise(name: string): string
  {
    Strip(ToLower(name))
  }

  /** A normalised name holds no upper-case letter, has no whitespace at either
      end, and normalising it again changes nothing. */
  lemma NormaliseSpec(name: string)
    ensures var n := Normalise(name);
      && (forall k :: 0 <= k < |n| ==> !IsUpper(n[k]))
      && (n != [] ==> !IsSpace(n[0]) && !IsSpace(n[|n| - 1]))
      && Normalise(n) == n
  {
    var lowered := ToLower(name);
    var i := SpaceEnd(lowered, 0);
    var j := TextEnd(lowered, i, |lowered|);
    var n := Strip(lowered);
    assert n == lowered[i..j];
    forall k | 0 <= k < |n| ensures !IsUpper(n[k]) {
      assert n[k] == lowered[i + k];
    }
    if n != [] {
      assert n[0] == lowered[i] && n[|n| - 1] == lowered[j - 1];
    }
    NormalisedFixed(n);
  }

  /** A name with no upper-case letter and no whitespace at either end is
      already normalised. */
  lemma NormalisedFixed(n: string)
    requires forall k :: 0 <= k < |n| ==> !IsUpper(n[k])
    requires n != [] ==> !IsSpace(n[0]) && !IsSpace(n[|n| - 1])
    ensures Normalise(n) == n
  {
    ToLowerFixed(n);
    StripFixed(n);
  }

  /** `s.replace(' ', '_')` */
  function ReplaceSpaces(s: string): (r: string)
    ensures |r| == |s| && ' ' !in r
    ensures forall k :: 0 <= k < |s| && s[k] != ' ' ==> r[k] == s[k]
    ensures forall k :: 0 <= k < |s| && s[k] == ' ' ==> r[k] == '_'
  {
    seq(|s|, k requires 0 <= k < |s| => if s[k] == ' ' then '_' else s[k])
  }

  // ---------------------------------------------------------------------------
  // The regular expression r'@(.+?)(?:\.\w+)?$' as `re.search` runs it.

  /** `\.\w+` matching all of `t`. */
  predicate IsDotWord(t: string)
  {
    |t| >= 2 && t[0] == '.' && forall k :: 1 <= k < |t| ==> IsWordChar(t[k])
  }

  /** `(?:\.\w+)?$` tried at position `q`: the optional group first (its greedy
      `\w+` must reach the end for `$` to hold), then without it. */
  predicate TailMatchesAt(s: string, q: nat)
    requires q <= |s|
  {
    IsDotWord(s[q..]) || q == |s|
  }

  /** The lazy group `(.+?)`: it tries to end at `q`, then `q + 1`, and so on,
      and stops at the first end after which the rest of the pattern matches. */
  function LazyGroupEnd(s: string, q: nat): (r: Option<nat>)
    requires q <= |s|
    ensures r.Some? ==> q <= r.value <= |s|
    decreases |s| - q
  {
    if TailMatchesAt(s, q) then Some(q)
    else if q < |s| then LazyGroupEnd(s, q + 1)
    else None
  }

  /** `re.search` from position `p` on: group 1 of the leftmost match. A match
      must start at an `@` with at least one character after it. */
  function SearchFrom(s: string, p: nat): Option<string>
    decreases |s| - p
  {
    if p >= |s| then None
    else if s[p] == '@' && p + 2 <= |s| then
      match LazyGroupEnd(s, p + 2)
      case Some(q) => Some(s[p + 1..q])
      case None => SearchFrom(s, p + 1)
    else SearchFrom(s, p + 1)
  }

  /** `extract_domain` (lines 11-22). */
  function ExtractDomain(publisherName: string): string
  {
    DomainOfNormalised(Normalise(publisherName))
  }

  /** Lines 16-22, applied to the already normalised name. */
  function DomainOfNormalised(name: string): string
  {
    if '@' in name then
      match SearchFrom(name, 0)
      case Some(group) => group
      case None => ReplaceSpaces(name)
    else
      ReplaceSpaces(name)
  }

  // ---------------------------------------------------------------------------
  // The same rule in closed form.

  /** `s.index(c)`: the first position holding `c`. */
  function IndexOf(s: string, c: char): (r: nat)
    requires c in s
    ensures r < |s| && s[r] == c
    ensures forall k :: 0 <= k < r ==> s[k] != c
  {
    IndexFrom(s, c, 0)
  }

  /** The first position at or after `p` holding `c`, when none before `p` does. */
  function IndexFrom(s: string, c: char, p: nat): (r: nat)
    requires c in s && p <= |s|
    requires forall k :: 0 <= k < p ==> s[k] != c
    ensures p <= r < |s| && s[r] == c
    ensures forall k :: 0 <= k < r ==> s[k] != c
    decreases |s| - p
  {
    if p < |s| && s[p] == c then p
    else if p < |s| then IndexFrom(s, c, p + 1)
    else assert false; p
  }

  /** Position of the last `.` in `t`, or -1 when there is none. */
  function LastDot(t: string): (k: int)
    ensures -1 <= k < |t|
    ensures k >= 0 ==> t[k] == '.'
    ensures forall i :: k < i < |t| ==> t[i] != '.'
  {
    LastDotBefore(t, |t|)
  }

  /** Position of the last `.` in `t[..j]`, or -1 when there is none. */
  function LastDotBefore(t: string, j: nat): (k: int)
    requires j <= |t|
    ensures -1 <= k < j
    ensures k >= 0 ==> t[k] == '.'
    ensures forall i :: k < i < j ==> t[i] != '.'
  {
    if j == 0 then -1
    else if t[j - 1] == '.' then j - 1
    else LastDotBefore(t, j - 1)
  }

  /** `t` ends in a dot followed by one or more word characters, and something
      comes before that dot. */
  predicate HasTld(t: string)
  {
    var k := LastDot(t);
    1 <= k < |t| - 1 && forall i :: k < i < |t| ==> IsWordChar(t[i])
  }

  /** The part of an address after the `@`, without its final `.word` suffix. */
  function StripTld(t: string): string
  {
    if HasTld(t) then t[..LastDot(t)] else t
  }

  /** Only the last dot-suffix is ever removed, only when it is all word
      characters, and never when that would leave nothing; the rest of `t`
      (spaces included) is kept as it is. */
  lemma StripTldSpec(t: string)
    ensures var r := StripTld(t);
      && r == t[..|r|]
      && (r != t <==> exists k :: 1 <= k < |t| && IsDotWord(t[k..]))
      && (r != t ==> 1 <= |r| && IsDotWord(t[|r|..]))
  {
    if HasTld(t) {
      var k := LastDot(t);
      assert IsDotWord(t[k..]);
    } else {
      forall k | 1 <= k < |t| ensures !IsDotWord(t[k..]) {
        DotWordTailImpliesTld(t, k);
      }
    }
  }

  /** A dot with no dot after it is the last dot. */
  lemma LastDotAt(t: string, k: nat)
    requires k < |t| && t[k] == '.'
    requires forall i :: k < i < |t| ==> t[i] != '.'
    ensures LastDot(t) == k
  {
  }

  /** A `.word` suffix starts at the last dot. */
  lemma LastDotAfterDotWord(t: string, k: nat)
    requires k < |t| && IsDotWord(t[k..])
    ensures LastDot(t) == k
  {
    assert t[k] == t[k..][0];
    forall i | k < i < |t| ensures t[i] != '.' {
      assert t[i] == t[k..][i - k];
    }
    LastDotAt(t, k);
  }

  /** A `.word` tail after the first character is the suffix `StripTld` removes. */
  lemma DotWordTailImpliesTld(t: string, k: nat)
    requires 1 <= k < |t|
    ensures IsDotWord(t[k..]) ==> HasTld(t) && LastDot(t) == k
  {
    if IsDotWord(t[k..]) {
      LastDotAfterDotWord(t, k);
      forall i | k < i < |t| ensures IsWordChar(t[i]) {
        assert t[i] == t[k..][i - k];
      }
    }
  }

  /** Where the lazy group ends for a match whose group starts at `start`. */
  function GroupEnd(s: string, start: nat): (g: nat)
    requires start < |s|
    ensures start < g <= |s|
  {
    var t := s[start..];
    if HasTld(t) then start + LastDot(t) else |s|
  }

  lemma {:induction false} LazyGroupEndRule(s: string, start: nat, q: nat)
    requires start < |s| && start < q <= GroupEnd(s, start)
    ensures LazyGroupEnd(s, q) == Some(GroupEnd(s, start))
    decreases |s| - q
  {
    var t := s[start..];
    var g := GroupEnd(s, start);
    if q == g {
      if HasTld(t) {
        var k := LastDot(t);
        assert s[g..] == t[k..];
        assert IsDotWord(s[g..]);
      }
    } else {
      DotWordTailImpliesTld(t, q - start);
      assert s[q..] == t[q - start..];
      LazyGroupEndRule(s, start, q + 1);
    }
  }

  /** Positions holding no `@` are passed over by the search. */
  lemma {:induction false} SearchSkips(s: string, p: nat, i: nat)
    requires p <= i <= |s|
    requires forall k :: p <= k < i ==> s[k] != '@'
    ensures SearchFrom(s, p) == SearchFrom(s, i)
    decreases i - p
  {
    if p < i { SearchSkips(s, p + 1, i); }
  }

  /** The regular expression matches exactly when something follows the first
      `@`, and group 1 is then that text less its final `.word` suffix. */
  lemma RegexRule(s: string)
    requires '@' in s
    ensures var i := IndexOf(s, '@');
      SearchFrom(s, 0) == if i + 1 < |s| then Some(StripTld(s[i + 1..])) else None
  {
    var i := IndexOf(s, '@');
    SearchSkips(s, 0, i);
    if i + 1 < |s| {
      MatchAt(s, i);
    } else {
      assert SearchFrom(s, i) == SearchFrom(s, i + 1);
    }
  }

  /** Group 1 is the text from `start` up to where the lazy group ends. */
  lemma GroupIsStripTld(s: string, start: nat)
    requires start < |s|
    ensures s[start..GroupEnd(s, start)] == StripTld(s[start..])
  {
    var t := s[start..];
    if HasTld(t) {
      assert s[start..start + LastDot(t)] == t[..LastDot(t)];
    }
  }

  /** An `@` with text after it starts a match, whose group 1 is that text less
      its final `.word` suffix. */
  lemma MatchAt(s: string, i: nat)
    requires i + 1 < |s| && s[i] == '@'
    ensures SearchFrom(s, i) == Some(StripTld(s[i + 1..]))
  {
    LazyGroupEndRule(s, i + 1, i + 2);
    GroupIsStripTld(s, i + 1);
  }

  /** What `extract_domain` returns, branch by branch, for a name already
      lower-cased and stripped. */
  lemma DomainRule(name: string)
    ensures var r := DomainOfNormalised(name);
      && ('@' !in name ==> r == ReplaceSpaces(name) && ' ' !in r)
      && ('@' in name && IndexOf(name, '@') < |name| - 1 ==>
            r == StripTld(name[IndexOf(name, '@') + 1..]))
      && ('@' in name && IndexOf(name, '@') == |name| - 1 ==> r == ReplaceSpaces(name))
  {
    if '@' in name { RegexRule(name); }
  }

  /** Lower-casing and stripping come before everything else: a name and its
      normalised form give the same domain. */
  lemma ExtractDomainNormalises(publisherName: string)
    ensures ExtractDomain(Normalise(publisherName)) == ExtractDomain(publisherName)
  {
    NormaliseSpec(publisherName);
  }

  /** For a normalised name whose first `@` is at `i` and has text after it,
      the domain is that text without its suffix. */
  lemma AddressRule(p: string, i: nat)
    requires i + 1 < |p| && p[i] == '@' && forall k :: 0 <= k < i ==> p[k] != '@'
    ensures DomainOfNormalised(p) == StripTld(p[i + 1..])
  {
    DomainRule(p);
    assert IndexOf(p, '@') == i;
  }

  /** Examples of the rule, from the publishers seen in the data and from its
      corner cases. */
  lemma StripTldEmailExample(t: string)
    requires t == "benzinga.com"
    ensures StripTld(t) == "benzinga"
  {
    assert t[8..] == ".com";
    DotWordTailImpliesTld(t, 8);
  }

  lemma StripTldKeepsSpacesExample(t: string)
    requires t == "my news.com"
    ensures StripTld(t) == "my news"
  {
    assert t[7..] == ".com";
    DotWordTailImpliesTld(t, 7);
  }

  lemma StripTldLastSuffixExample(t: string)
    requires t == "b.co.uk"
    ensures StripTld(t) == "b.co"
  {
    assert t[4..] == ".uk";
    DotWordTailImpliesTld(t, 4);
  }

  lemma StripTldNonWordSuffixExample(t: string)
    requires t == "b.co-uk"
    ensures StripTld(t) == t
  {
    LastDotAt(t, 1);
    assert !IsWordChar(t[4]);
  }

  lemma StripTldBareSuffixExample(t: string)
    requires t == ".com"
    ensures StripTld(t) == t
  {
    LastDotAt(t, 0);
  }

  lemma NormaliseExample(p: string)
    requires p == " AP News"
    ensures Normalise(p) == "ap news"
  {
    var lowered := " ap news";
    assert ToLower(p) == lowered;
    assert SpaceEnd(lowered, 0) == 1;
    assert TextEnd(lowered, 1, |lowered|) == |lowered|;
    assert lowered[1..] == "ap news";
  }

  lemma ExtractDomainNameExample(p: string)
    requires p == " AP News"
    ensures ExtractDomain(p) == "ap_news"
  {
    NormaliseExample(p);
    var n := "ap news";
    assert forall k :: 0 <= k < |n| ==> n[k] != '@';
    assert DomainOfNormalised(n) == ReplaceSpaces(n);
  }

  lemma ExtractDomainLastSuffixExample(p: string)
    requires p == "x@b.co.uk"
    ensures ExtractDomain(p) == "b.co"
  {
    NormalisedFixed(p);
    AddressRule(p, 1);
    StripTldLastSuffixExample(p[2..]);
  }

  lemma ExtractDomainNonWordSuffixExample(p: string)
    requires p == "x@b.co-uk"
    ensures ExtractDomain(p) == "b.co-uk"
  {
    NormalisedFixed(p);
    AddressRule(p, 1);
    StripTldNonWordSuffixExample(p[2..]);
  }

  lemma ExtractDomainBareSuffixExample(p: string)
    requires p == "x@.com"
    ensures ExtractDomain(p) == ".com"
  {
    NormalisedFixed(p);
    AddressRule(p, 1);
    StripTldBareSuffixExample(p[2..]);
  }

  lemma ExtractDomainTrailingAtExample(p: string)
    requires p == "x@"
    ensures ExtractDomain(p) == "x@"
  {
    NormalisedFixed(p);
    DomainRule(p);
    assert IndexOf(p, '@') == 1;
  }

  // ---------------------------------------------------------------------------
  // The cleaning step of run_data_cleaning (lines 41-44).

  predicate Complete(r: NewsRecord)
  {
    r.headline.Some? && r.publisher.Some?
  }

  /** `dropna(subset=['headline', 'publisher'])` */
  function DropIncompleteRows(rows: seq<NewsRecord>): (r: seq<NewsRecord>)
    ensures |r| <= |rows|
    ensures forall x :: x in r ==> x in rows && Complete(x)
    ensures forall x :: x in rows && Complete(x) ==> x in r
  {
    if rows == [] then []
    else (if Complete(rows[0]) then [rows[0]] else []) + DropIncompleteRows(rows[1..])
  }

  /** Dropping works row by row: it keeps the surviving rows in their order. */
  lemma {:induction false} DropIncompleteRowsAppend(a: seq<NewsRecord>, b: seq<NewsRecord>)
    ensures DropIncompleteRows(a + b) == DropIncompleteRows(a) + DropIncompleteRows(b)
  {
    if a != [] {
      assert (a + b)[0] == a[0];
      assert (a + b)[1..] == a[1..] + b;
      DropIncompleteRowsAppend(a[1..], b);
    } else {
      assert a + b == b;
    }
  }

  /** `str(publisher)`: a null cell reads as "nan". */
  function PublisherText(p: Option<string>): string
  {
    match p
    case Some(s) => s
    case None => "nan"
  }

  /** A row with its `publisher_domain` cell set from its publisher. */
  function WithDomain(r: NewsRecord): NewsRecord
  {
    r.(publisherDomain := Some(ExtractDomain(PublisherText(r.publisher))))
  }

  function MapWithDomain(rows: seq<NewsRecord>): seq<NewsRecord>
  {
    seq(|rows|, i requires 0 <= i < |rows| => WithDomain(rows[i]))
  }

  /** The whole cleaning step on a table's rows. */
  function CleanRows(rows: seq<NewsRecord>): seq<NewsRecord>
  {
    MapWithDomain(DropIncompleteRows(rows))
  }

  /** Cleaning keeps exactly the complete rows and changes nothing in them but
      `publisher_domain`, which it sets from the publisher. */
  lemma CleanRowsSpec(rows: seq<NewsRecord>)
    ensures |CleanRows(rows)| <= |rows|
    ensures forall x :: x in CleanRows(rows) ==> exists y :: y in rows && Complete(y) && x == WithDomain(y)
    ensures forall y :: y in rows && Complete(y) ==> WithDomain(y) in CleanRows(rows)
  {
    var kept := DropIncompleteRows(rows);
    forall x | x in CleanRows(rows)
      ensures exists y :: y in rows && Complete(y) && x == WithDomain(y)
    {
      var i :| 0 <= i < |kept| && CleanRows(rows)[i] == x;
      assert kept[i] in kept;
    }
    forall y | y in rows && Complete(y) ensures WithDomain(y) in CleanRows(rows) {
      var i :| 0 <= i < |kept| && kept[i] == y;
      assert CleanRows(rows)[i] == WithDomain(y);
    }
  }

  lemma {:induction false} CleanRowsAppend(a: seq<NewsRecord>, b: seq<NewsRecord>)
    ensures CleanRows(a + b) == CleanRows(a) + CleanRows(b)
  {
    DropIncompleteRowsAppend(a, b);
    MapWithDomainAppend(DropIncompleteRows(a), DropIncompleteRows(b));
  }

  lemma MapWithDomainAppend(x: seq<NewsRecord>, y: seq<NewsRecord>)
    ensures MapWithDomain(x + y) == MapWithDomain(x) + MapWithDomain(y)
  {
    var l, r := MapWithDomain(x + y), MapWithDomain(x) + MapWithDomain(y);
    assert |l| == |r|;
    forall i | 0 <= i < |l| ensures l[i] == r[i] {
      if i < |x| {
        assert l[i] == WithDomain(x[i]) == MapWithDomain(x)[i];
      } else {
        assert l[i] == WithDomain(y[i - |x|]) == MapWithDomain(y)[i - |x|];
      }
    }
  }

  /** Line 41: `df.dropna(subset=['headline', 'publisher'], inplace=True)`. */
  method DropIncomplete(df: NewsTable)
    modifies df
    ensures df.rows == DropIncompleteRows(old(df.rows))
  {
    df.rows := DropIncompleteRows(df.rows);
  }

  /** Line 44: `df['publisher_domain'] = df['publisher'].apply(extract_domain)`. */
  method AddPublisherDomain(df: NewsTable)
    modifies df
    ensures |df.rows| == |old(df.rows)|
    ensures forall i :: 0 <= i < |df.rows| ==> df.rows[i] == WithDomain(old(df.rows)[i])
  {
    df.rows := MapWithDomain(df.rows);
  }

  /** Lines 41-44 in order. */
  method RunDataCleaning(df: NewsTable)
    modifies df
    ensures df.rows == CleanRows(old(df.rows))
    ensures forall x :: x in df.rows ==> x.headline.Some? && x.publisherDomain.Some?
  {
    DropIncomplete(df);
    ghost var kept := df.rows;
    AddPublisherDomain(df);
    assert df.rows == MapWithDomain(kept);
    forall x | x in df.rows ensures x.headline.Some? && x.publisherDomain.Some? {
      var i :| 0 <= i < |df.rows| && df.rows[i] == x;
      assert kept[i] in kept;
    }
  }
}
