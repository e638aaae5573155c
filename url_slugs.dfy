/**
 * `infer_artist_album_from_url` (universal_scraper.py): the artist and album
 * a review URL names in its path, for RateYourMusic, AlbumOfTheYear, The
 * Quietus and Pitchfork. The sites are tried in that order; a site whose host
 * is in the URL but whose pattern gives nothing lets the next one try. Both
 * OpenGraph lookups over HTTP are taken to fail, so only the slug rules
 * decide.
 *
 * Two of the regular expressions are anchored at the end and have groups
 * without `/`, so they are stated on the `/`-separated segments of the URL;
 * the other three are leftmost-match searches.
 */
module UrlSlugs {
  import opened Wrappers
  import opened Text

  const RYM_HOST: string := "rateyourmusic.com"
  const AOTY_HOST: string := "albumoftheyear.org"
  const QUIETUS_HOST: string := "thequietus.com"
  const PITCHFORK_HOST: string := "pitchfork.com"

  const AOTY_PATH: string := "/album/"
  const AOTW_PATH: string := "/quietus-reviews/album-of-the-week/"
  const PITCHFORK_PATH: string := "/reviews/albums/"
  const PHP: string := ".php"
  const REVIEW_SUFFIX: string := "-review"
  const BY_SEP: string := "-by-"
  const AOTW_MARKER: string := "-is-our-album-of-the-week"

  /** What the function returns: an optional artist and an optional album. */
  type Inferred = (Option<string>, Option<string>)

  /** The class `[a-z0-9-]`. */
  predicate IsSlugChar(c: char) {
    IsLower(c) || IsDigit(c) || c == '-'
  }

  predicate IsSlug(s: string) {
    forall i :: 0 <= i < |s| ==> IsSlugChar(s[i])
  }

  /** `s.replace("-", " ").title()` */
  function Dehyphen(s: string): string {
    Title(Replace(s, '-', ' '))
  }

  /** `" ".join(words).title()` */
  function TitleJoin(words: seq<string>): string {
    Title(Join(" ", words))
  }

  /** `s.removesuffix(suffix)` */
  function RemoveSuffix(s: string, suffix: string): (r: string)
    ensures EndsWith(s, suffix) ==> r + suffix == s
    ensures !EndsWith(s, suffix) ==> r == s
  {
    if EndsWith(s, suffix) then
      assert s[..|s| - |suffix|] + s[|s| - |suffix|..] == s;
      s[..|s| - |suffix|]
    else s
  }

  /** Where the run of digits that starts at `i` ends. */
  function DigitsEnd(s: string, i: nat): (j: nat)
    requires i <= |s|
    ensures i <= j <= |s|
    ensures forall k :: i <= k < j ==> IsDigit(s[k])
    ensures j < |s| ==> !IsDigit(s[j])
    decreases |s| - i
  {
    if i == |s| || !IsDigit(s[i]) then i else DigitsEnd(s, i + 1)
  }

  /** Where the run of `[a-z0-9-]` characters that starts at `i` ends. */
  function SlugEnd(s: string, i: nat): (j: nat)
    requires i <= |s|
    ensures i <= j <= |s|
    ensures forall k :: i <= k < j ==> IsSlugChar(s[k])
    ensures j < |s| ==> !IsSlugChar(s[j])
    decreases |s| - i
  {
    if i == |s| || !IsSlugChar(s[i]) then i else SlugEnd(s, i + 1)
  }

  /** Where the run of `[^.]` characters that starts at `i` ends. */
  function DotEnd(s: string, i: nat): (j: nat)
    requires i <= |s|
    ensures i <= j <= |s|
    ensures forall k :: i <= k < j ==> s[k] != '.'
    ensures j < |s| ==> s[j] == '.'
    decreases |s| - i
  {
    if i == |s| || s[i] == '.' then i else DotEnd(s, i + 1)
  }

  // ---------------------------------------------------------------------------
  // Patterns anchored at the end of the URL

  /** The `/`-separated pieces of a URL, less the empty piece that one trailing `/` leaves. */
  function Segments(url: string): (ps: seq<string>)
    ensures |ps| >= 1
    ensures forall k :: 0 <= k < |ps| ==> '/' !in ps[k]
  {
    var parts := Split(url, '/');
    if |parts| >= 2 && parts[|parts| - 1] == [] then parts[..|parts| - 1] else parts
  }

  /**
   * `/release/album/([^/]+)/([^/]+)/?$` matches: the match runs to the end
   * and its groups hold no `/`, so it is the last four segments.
   */
  predicate RymMatches(url: string) {
    var ps := Segments(url);
    var n := |ps|;
    n >= 5 && ps[n - 4] == "release" && ps[n - 3] == "album" && ps[n - 2] != [] && ps[n - 1] != []
  }

  /** The RateYourMusic rule: both groups with hyphens as spaces, title-cased. */
  function FromRateYourMusic(url: string): Option<Inferred> {
    if RymMatches(url) then
      var ps := Segments(url);
      Some((Some(Dehyphen(ps[|ps| - 2])), Some(Dehyphen(ps[|ps| - 1]))))
    else None
  }

  /** A segment that `\d+-([a-z0-9-]+)-review` spans whole. */
  predicate ArticleSegment(seg: string) {
    var d := DigitsEnd(seg, 0);
    0 < d && d + 1 + |REVIEW_SUFFIX| < |seg| && seg[d] == '-' && EndsWith(seg, REVIEW_SUFFIX)
    && IsSlug(seg[d + 1..|seg| - |REVIEW_SUFFIX|])
  }

  /** The group of an article segment: between the `-` after the number and the final `-review`. */
  function ArticleGroup(seg: string): string
    requires ArticleSegment(seg)
  {
    seg[DigitsEnd(seg, 0) + 1..|seg| - |REVIEW_SUFFIX|]
  }

  /**
   * `/articles/\d+-([a-z0-9-]+)-review/?$` matches: the match runs to the end
   * and holds no `/` after `articles`, so it is the last two segments.
   */
  predicate ArticleMatches(url: string) {
    var ps := Segments(url);
    var n := |ps|;
    n >= 3 && ps[n - 2] == "articles" && ArticleSegment(ps[n - 1])
  }

  /** The words of the slug a matching article URL names. */
  function ArticleWords(url: string): (words: seq<string>)
    requires ArticleMatches(url)
  {
    var ps := Segments(url);
    Split(ArticleGroup(ps[|ps| - 1]), '-')
  }

  /** The Quietus article rule: four or more words give a two-word artist, fewer a one-word artist. */
  function FromQuietusArticle(url: string): Option<Inferred> {
    if ArticleMatches(url) then
      var words := ArticleWords(url);
      if |words| >= 4 then Some((Some(TitleJoin(words[..2])), Some(TitleJoin(words[2..]))))
      else Some((Some(TitleJoin(words[..1])), Some(TitleJoin(words[1..]))))
    else None
  }

  // ---------------------------------------------------------------------------
  // Patterns searched for anywhere in the URL

  /**
   * The unanchored patterns: `/album/\d+-([^.]+)\.php` and a fixed path
   * followed by `([a-z0-9-]+)`.
   */
  datatype Pattern = AotyAlbum | SlugPath(path: string)

  function PathOf(pattern: Pattern): string {
    match pattern
    case AotyAlbum => AOTY_PATH
    case SlugPath(path) => path
  }

  /**
   * The pattern matches at `q`. For `AotyAlbum` the digit run must be followed
   * by `-` (no digit is a `-`), and the greedy `[^.]+` must stop right before
   * `.php` (it cannot stop anywhere else, since `\.` needs a dot).
   */
  predicate MatchAt(pattern: Pattern, url: string, q: nat) {
    OccursAt(url, PathOf(pattern), q) &&
    var g := q + |PathOf(pattern)|;
    match pattern
    case AotyAlbum =>
      var d := DigitsEnd(url, g);
      g < d < |url| && url[d] == '-' && DotEnd(url, d + 1) > d + 1 && OccursAt(url, PHP, DotEnd(url, d + 1))
    case SlugPath(_) => g < |url| && IsSlugChar(url[g])
  }

  /** Where the group of a match at `q` starts. */
  function GroupStart(pattern: Pattern, url: string, q: nat): (s: nat)
    requires MatchAt(pattern, url, q)
    ensures s <= |url|
  {
    match pattern
    case AotyAlbum => DigitsEnd(url, q + |AOTY_PATH|) + 1
    case SlugPath(path) => q + |path|
  }

  /** Where the group of a match at `q` ends. */
  function GroupEnd(pattern: Pattern, url: string, q: nat): (e: nat)
    requires MatchAt(pattern, url, q)
    ensures GroupStart(pattern, url, q) < e <= |url|
  {
    match pattern
    case AotyAlbum => DotEnd(url, GroupStart(pattern, url, q))
    case SlugPath(_) => SlugEnd(url, GroupStart(pattern, url, q))
  }

  /** `re.search`: the leftmost match at or after `i`. */
  function FirstMatch(pattern: Pattern, url: string, i: nat): (r: Option<nat>)
    ensures r.Some? ==> i <= r.value && MatchAt(pattern, url, r.value)
    ensures r.Some? ==> forall q :: i <= q < r.value ==> !MatchAt(pattern, url, q)
    ensures r.None? ==> forall q :: i <= q ==> !MatchAt(pattern, url, q)
    decreases |url| - i
  {
    if i >= |url| then None
    else if MatchAt(pattern, url, i) then Some(i)
    else FirstMatch(pattern, url, i + 1)
  }

  /** The group of the leftmost match, if there is one. */
  function SearchGroup(pattern: Pattern, url: string): Option<string> {
    match FirstMatch(pattern, url, 0)
    case None => None
    case Some(q) => Some(url[GroupStart(pattern, url, q)..GroupEnd(pattern, url, q)])
  }

  /**
   * The AlbumOfTheYear rule on the words of the group: the last two words are
   * the album when there are three or more, one word each when there are two,
   * and a single word is the artist with an empty album.
   */
  function AotyFromWords(slug: seq<string>): (r: Inferred)
    requires |slug| >= 1
  {
    if |slug| >= 3 then (Some(TitleJoin(slug[..|slug| - 2])), Some(TitleJoin(slug[|slug| - 2..])))
    else if |slug| == 2 then (Some(Title(slug[0])), Some(Title(slug[1])))
    else (Some(TitleJoin(slug[..1])), Some(TitleJoin(slug[1..])))
  }

  function FromAlbumOfTheYear(url: string): Option<Inferred> {
    match SearchGroup(AotyAlbum, url)
    case None => None
    case Some(group) => Some(AotyFromWords(Split(group, '-')))
  }

  /**
   * The album-of-the-week rule on its slug: without a trailing `-review`,
   * split at the last `-by-` into album and artist; failing that, the text
   * before `-is-our-album-of-the-week` gives the first word as artist and the
   * rest, if any, as album; failing that, nothing.
   */
  function FromAlbumOfTheWeekSlug(slug: string): Option<Inferred> {
    FromAlbumOfTheWeekSlugText(RemoveSuffix(slug, REVIEW_SUFFIX))
  }

  /** The album-of-the-week rule once a trailing `-review` is gone. */
  function FromAlbumOfTheWeekSlugText(s: string): Option<Inferred> {
    match RFind(s, BY_SEP)
    case Some(i) => Some((Some(Dehyphen(s[i + |BY_SEP|..])), Some(Dehyphen(s[..i]))))
    case None =>
      match Find(s, AOTW_MARKER)
      case None => None
      case Some(i) => Some(FromMarkerPrefix(s[..i]))
  }

  /**
   * The marker branch on the text before `-is-our-album-of-the-week`: with
   * hyphens as spaces and title-cased, its first word is the artist and the
   * rest the album, or the whole text when there is no rest; no word at all
   * gives no artist.
   */
  function FromMarkerPrefix(prefix: string): Inferred {
    var album := Dehyphen(prefix);
    var tokens := Words(album);
    if tokens != [] then
      var rest := Join(" ", tokens[1..]);
      (Some(Title(tokens[0])), Some(if rest != [] then rest else album))
    else (None, Some(album))
  }

  function FromAlbumOfTheWeek(url: string): Option<Inferred> {
    match SearchGroup(SlugPath(AOTW_PATH), url)
    case None => None
    case Some(slug) => FromAlbumOfTheWeekSlug(slug)
  }

  /** The Pitchfork rule: three or more words give the first as artist and the rest as album. */
  function FromPitchfork(url: string): Option<Inferred> {
    match SearchGroup(SlugPath(PITCHFORK_PATH), url)
    case None => None
    case Some(group) =>
      var words := Split(group, '-');
      if |words| >= 3 then Some((Some(Title(words[0])), Some(TitleJoin(words[1..])))) else None
  }

  /** `infer_artist_album_from_url(url)`, with both HTTP lookups failing. */
  function InferArtistAlbumFromUrl(url: string): Inferred {
    if Contains(url, RYM_HOST) && FromRateYourMusic(url).Some? then FromRateYourMusic(url).value
    else if Contains(url, AOTY_HOST) && FromAlbumOfTheYear(url).Some? then FromAlbumOfTheYear(url).value
    else if Contains(url, QUIETUS_HOST) && FromQuietusArticle(url).Some? then FromQuietusArticle(url).value
    else if Contains(url, QUIETUS_HOST) && FromAlbumOfTheWeek(url).Some? then FromAlbumOfTheWeek(url).value
    else if Contains(url, PITCHFORK_HOST) && FromPitchfork(url).Some? then FromPitchfork(url).value
    else (None, None)
  }

  // ---------------------------------------------------------------------------
  // Properties

  lemma SegmentsOfSplit(url: string, ps: seq<string>)
    requires |ps| >= 1 && ps[|ps| - 1] != [] && Split(url, '/') == ps
    ensures Segments(url) == ps
  {
  }

  lemma SegmentsOfTrailingSplit(url: string, ps: seq<string>)
    requires |ps| >= 1 && Split(url, '/') == ps + [[]]
    ensures Segments(url) == ps
  {
    assert (ps + [[]])[..|ps|] == ps;
  }

  lemma SegmentsOfPlainJoin(ps: seq<string>, url: string)
    requires |ps| >= 1 && ps[|ps| - 1] != []
    requires forall k :: 0 <= k < |ps| ==> '/' !in ps[k]
    requires url == Join("/", ps)
    ensures Segments(url) == ps
  {
    SplitJoin(ps, '/');
    SegmentsOfSplit(url, ps);
  }

  lemma SegmentsOfTrailingJoin(ps: seq<string>, url: string)
    requires |ps| >= 1 && ps[|ps| - 1] != []
    requires forall k :: 0 <= k < |ps| ==> '/' !in ps[k]
    requires url == Join("/", ps) + "/"
    ensures Segments(url) == ps
  {
    var qs := ps + [[]];
    JoinSnoc("/", ps, []);
    assert url == Join("/", qs);
    forall k | 0 <= k < |qs| ensures '/' !in qs[k] {
      if k < |ps| { assert qs[k] == ps[k]; }
    }
    SplitJoin(qs, '/');
    SegmentsOfTrailingSplit(url, ps);
  }

  /**
   * Building a URL from segments that hold no `/`, the last one nonempty,
   * with or without a final `/`, and splitting it again gives them back.
   */
  lemma SegmentsOfJoin(ps: seq<string>, trailing: bool, url: string)
    requires |ps| >= 1 && ps[|ps| - 1] != []
    requires forall k :: 0 <= k < |ps| ==> '/' !in ps[k]
    requires url == Join("/", ps) + (if trailing then "/" else "")
    ensures Segments(url) == ps
  {
    if trailing {
      SegmentsOfTrailingJoin(ps, url);
    } else {
      assert url == Join("/", ps);
      SegmentsOfPlainJoin(ps, url);
    }
  }

  /**
   * A URL whose segments end `release/album/<a>/<b>` (so `…/release/album/a/b`
   * with or without a final `/`, by `SegmentsOfJoin`) gives `a` and `b` with
   * hyphens as spaces, title-cased; on a RateYourMusic URL that is the answer.
   */
  lemma RateYourMusicOf(url: string, front: seq<string>, a: string, b: string)
    requires |front| >= 1 && a != [] && b != []
    requires Segments(url) == front + ["release", "album", a, b]
    ensures FromRateYourMusic(url) == Some((Some(Dehyphen(a)), Some(Dehyphen(b))))
    ensures Contains(url, RYM_HOST) ==> InferArtistAlbumFromUrl(url) == (Some(Dehyphen(a)), Some(Dehyphen(b)))
  {
    var ps := Segments(url);
    assert ps[|ps| - 4] == "release" && ps[|ps| - 3] == "album";
    assert ps[|ps| - 2] == a && ps[|ps| - 1] == b;
  }



  lemma {:induction false} JoinSlug(words: seq<string>)
    requires forall k :: 0 <= k < |words| ==> IsSlug(words[k])
    ensures IsSlug(Join("-", words))
    decreases |words|
  {
    if |words| > 1 {
      JoinSlug(words[1..]);
      var rest := Join("-", words[1..]);
      var s := words[0] + "-" + rest;
      forall i | 0 <= i < |s| ensures IsSlugChar(s[i]) {
        if i < |words[0]| {
          assert s[i] == words[0][i];
        } else if i > |words[0]| {
          assert s[i] == rest[i - |words[0]| - 1];
        }
      }
    }
  }

  /** `<digits>-<group>-review` is an article segment whose group is `group`. */
  lemma ArticleSegmentOf(digits: string, group: string)
    requires digits != [] && forall i :: 0 <= i < |digits| ==> IsDigit(digits[i])
    requires group != [] && IsSlug(group)
    ensures var seg := digits + "-" + group + REVIEW_SUFFIX;
      ArticleSegment(seg) && ArticleGroup(seg) == group && '/' !in seg
  {
    var seg := digits + "-" + group + REVIEW_SUFFIX;
    var d := |digits|;
    assert forall k :: 0 <= k < d ==> seg[k] == digits[k];
    assert seg[d] == '-';
    assert DigitsEnd(seg, 0) == d;
    assert seg[d + 1..|seg| - |REVIEW_SUFFIX|] == group;
    assert seg[|seg| - |REVIEW_SUFFIX|..] == REVIEW_SUFFIX;
    forall i | 0 <= i < |seg| ensures seg[i] != '/' {
      if i < d {
        assert IsDigit(seg[i]);
      } else if d < i < d + 1 + |group| {
        assert seg[i] == group[i - d - 1];
      }
    }
  }

  /** Segments ending `articles/<n>-<w1>-…-<wk>-review` match, and the words are `w1`…`wk`. */
  lemma ArticleWordsOf(url: string, front: seq<string>, digits: string, words: seq<string>)
    requires |front| >= 1
    requires digits != [] && forall i :: 0 <= i < |digits| ==> IsDigit(digits[i])
    requires |words| >= 1 && forall k :: 0 <= k < |words| ==> IsSlug(words[k]) && '-' !in words[k]
    requires Join("-", words) != []
    requires Segments(url) == front + ["articles", digits + "-" + Join("-", words) + REVIEW_SUFFIX]
    ensures ArticleMatches(url) && ArticleWords(url) == words
  {
    var group := Join("-", words);
    JoinSlug(words);
    ArticleSegmentOf(digits, group);
    SplitJoin(words, '-');
    var ps := Segments(url);
    assert ps[|ps| - 2] == "articles";
    assert ps[|ps| - 1] == digits + "-" + group + REVIEW_SUFFIX;
  }

  /**
   * A Quietus article URL that matches with words `w1`…`wk` (by
   * `ArticleWordsOf`, one whose segments end `articles/<n>-<w1>-…-<wk>-review`):
   * four or more words give the first two as artist and the rest as album,
   * fewer give the first word as artist.
   */
  lemma QuietusArticleOf(url: string, words: seq<string>)
    requires ArticleMatches(url) && ArticleWords(url) == words
    ensures var expected := if |words| >= 4 then (Some(TitleJoin(words[..2])), Some(TitleJoin(words[2..])))
        else (Some(TitleJoin(words[..1])), Some(TitleJoin(words[1..])));
      FromQuietusArticle(url) == Some(expected) &&
      (Contains(url, QUIETUS_HOST) && !Contains(url, RYM_HOST) && !Contains(url, AOTY_HOST) ==>
        InferArtistAlbumFromUrl(url) == expected)
  {
  }

  /** Splitting the words anywhere and title-casing both sides loses nothing. */
  lemma TitleJoinSplitAt(words: seq<string>, k: nat)
    requires 1 <= k < |words|
    ensures TitleJoin(words[..k]) + " " + TitleJoin(words[k..]) == TitleJoin(words)
  {
    assert words[..k] + words[k..] == words;
    JoinAppend(" ", words[..k], words[k..]);
    TitleSpaced(Join(" ", words[..k]), Join(" ", words[k..]));
  }

  /**
   * The AlbumOfTheYear split: with two or more words the artist, a space and
   * the album are all the words title-cased, and the album is the last two
   * words (one when there are two); a single word is the artist with an
   * empty album.
   */
  lemma AotyFromWordsSplit(words: seq<string>)
    requires |words| >= 1
    ensures var (artist, album) := AotyFromWords(words);
      artist.Some? && album.Some? &&
      (|words| >= 2 ==> artist.value + " " + album.value == TitleJoin(words)) &&
      (|words| >= 3 ==> album.value == TitleJoin(words[|words| - 2..])) &&
      (|words| == 2 ==> album.value == Title(words[1])) &&
      (|words| == 1 ==> artist.value == Title(words[0]) && album.value == [])
  {
    if |words| >= 3 {
      TitleJoinSplitAt(words, |words| - 2);
    } else if |words| == 2 {
      TitleJoinSplitAt(words, 1);
      assert words[..1] == [words[0]] && words[1..] == [words[1]];
    } else {
      assert words[..1] == words && words[1..] == [];
    }
  }

  /**
   * The Quietus article split: the artist is the first two words when there
   * are four or more and the first word otherwise; with two or more words
   * the artist, a space and the album are all the words title-cased.
   */
  lemma QuietusArticleSplit(url: string)
    requires ArticleMatches(url)
    ensures var words := ArticleWords(url);
      var r := FromQuietusArticle(url);
      r.Some? && r.value.0.Some? && r.value.1.Some? &&
      r.value.0.value == TitleJoin(if |words| >= 4 then words[..2] else words[..1]) &&
      (|words| >= 2 ==> r.value.0.value + " " + r.value.1.value == TitleJoin(words)) &&
      (|words| == 1 ==> r.value.1.value == [])
  {
    var words := ArticleWords(url);
    if |words| >= 4 {
      TitleJoinSplitAt(words, 2);
    } else if |words| >= 2 {
      TitleJoinSplitAt(words, 1);
    } else {
      assert words[1..] == [];
    }
  }

  /**
   * A search for a pattern whose path first occurs at `q`, and matches
   * there, finds that match.
   */
  lemma FirstMatchAtFirstPath(pattern: Pattern, url: string, q: nat)
    requires Find(url, PathOf(pattern)) == Some(q) && MatchAt(pattern, url, q)
    ensures FirstMatch(pattern, url, 0) == Some(q)
  {
  }

  /**
   * `path` first occurs right after `prefix` and is followed by a nonempty
   * slug that ends the URL or is followed by a character no slug holds:
   * the search gives that slug.
   */
  lemma SlugGroupOf(url: string, prefix: string, path: string, slug: string, tail: string)
    requires url == prefix + path + slug + tail
    requires Find(url, path) == Some(|prefix|)
    requires slug != [] && IsSlug(slug)
    requires tail == [] || !IsSlugChar(tail[0])
    ensures SearchGroup(SlugPath(path), url) == Some(slug)
  {
    var g := |prefix| + |path|;
    assert url[g] == slug[0];
    FirstMatchAtFirstPath(SlugPath(path), url, |prefix|);
    var e := SlugEnd(url, g);
    forall k | g <= k < g + |slug| ensures IsSlugChar(url[k]) {
      assert url[k] == slug[k - g];
    }
    assert tail != [] ==> url[g + |slug|] == tail[0];
    assert e == g + |slug|;
    assert url[g..e] == slug;
  }

  /**
   * At `q`, after `/album/`, a digit run ends at `d` with a `-`, and the
   * text up to the first dot at `e` is followed by `.php`: the pattern
   * matches there with group `url[d + 1..e]`.
   */
  lemma AlbumOfTheYearMatchAt(url: string, q: nat, d: nat, e: nat)
    requires OccursAt(url, AOTY_PATH, q)
    requires q + |AOTY_PATH| < d && d + 1 < e && e + |PHP| <= |url|
    requires forall k :: q + |AOTY_PATH| <= k < d ==> IsDigit(url[k])
    requires url[d] == '-' && forall k :: d < k < e ==> url[k] != '.'
    requires url[e..e + |PHP|] == PHP
    ensures MatchAt(AotyAlbum, url, q)
    ensures GroupStart(AotyAlbum, url, q) == d + 1 && GroupEnd(AotyAlbum, url, q) == e
  {
    DigitsEndAt(url, q + |AOTY_PATH|, d);
    assert url[e] == url[e..e + |PHP|][0];
    DotEndAt(url, d + 1, e);
    assert OccursAt(url, PHP, e);
  }

  lemma DigitsEndAt(s: string, i: nat, j: nat)
    requires i <= j < |s| && !IsDigit(s[j]) && forall k :: i <= k < j ==> IsDigit(s[k])
    ensures DigitsEnd(s, i) == j
  {
  }

  lemma DotEndAt(s: string, i: nat, j: nat)
    requires i <= j < |s| && s[j] == '.' && forall k :: i <= k < j ==> s[k] != '.'
    ensures DotEnd(s, i) == j
  {
  }

  /**
   * `/album/` first occurs at `q`, followed by a number ending at `d`, a `-`,
   * a nonempty group without a dot ending at `e` and `.php`: the search
   * gives the group.
   */
  lemma AlbumOfTheYearGroupOf(url: string, q: nat, d: nat, e: nat)
    requires Find(url, AOTY_PATH) == Some(q)
    requires q + |AOTY_PATH| < d && d + 1 < e && e + |PHP| <= |url|
    requires forall k :: q + |AOTY_PATH| <= k < d ==> IsDigit(url[k])
    requires url[d] == '-' && forall k :: d < k < e ==> url[k] != '.'
    requires url[e..e + |PHP|] == PHP
    ensures SearchGroup(AotyAlbum, url) == Some(url[d + 1..e])
  {
    AlbumOfTheYearMatchAt(url, q, d, e);
    FirstMatchAtFirstPath(AotyAlbum, url, q);
  }

  /**
   * An AlbumOfTheYear URL whose group is the words joined by `-`: the rule
   * splits them as `AotyFromWords` does, and on an AlbumOfTheYear URL where
   * the RateYourMusic rule does not apply (its page lookup failing) that is
   * the answer.
   */
  lemma AlbumOfTheYearOf(url: string, words: seq<string>)
    requires |words| >= 1 && forall k :: 0 <= k < |words| ==> '-' !in words[k]
    requires SearchGroup(AotyAlbum, url) == Some(Join("-", words))
    ensures FromAlbumOfTheYear(url) == Some(AotyFromWords(words))
    ensures (Contains(url, AOTY_HOST) && (!Contains(url, RYM_HOST) || FromRateYourMusic(url).None?)) ==>
      InferArtistAlbumFromUrl(url) == AotyFromWords(words)
  {
    SplitJoin(words, '-');
  }

  /**
   * A Pitchfork URL whose group is the words joined by `-`: three or more
   * words give the first as artist and the rest as album, fewer give
   * nothing; on a Pitchfork URL where no earlier site's rule applies, that
   * is the answer.
   */
  lemma PitchforkOf(url: string, words: seq<string>)
    requires |words| >= 1 && forall k :: 0 <= k < |words| ==> '-' !in words[k]
    requires SearchGroup(SlugPath(PITCHFORK_PATH), url) == Some(Join("-", words))
    ensures FromPitchfork(url) ==
      if |words| >= 3 then Some((Some(Title(words[0])), Some(TitleJoin(words[1..])))) else None
    ensures (Contains(url, PITCHFORK_HOST) && (!Contains(url, RYM_HOST) || FromRateYourMusic(url).None?)
      && (!Contains(url, AOTY_HOST) || FromAlbumOfTheYear(url).None?)
      && (!Contains(url, QUIETUS_HOST) || (FromQuietusArticle(url).None? && FromAlbumOfTheWeek(url).None?))) ==>
      InferArtistAlbumFromUrl(url) == if |words| >= 3 then FromPitchfork(url).value else (None, None)
  {
    SplitJoin(words, '-');
  }

  /** The Pitchfork split loses nothing: the artist, a space and the album are all the words title-cased. */
  lemma PitchforkSplit(words: seq<string>)
    requires |words| >= 3
    ensures Title(words[0]) + " " + TitleJoin(words[1..]) == TitleJoin(words)
  {
    TitleJoinSplitAt(words, 1);
    assert words[..1] == [words[0]];
  }

  /** A URL naming none of the four sites gives nothing. */
  lemma NoSite(url: string)
    requires !Contains(url, RYM_HOST) && !Contains(url, AOTY_HOST)
    requires !Contains(url, QUIETUS_HOST) && !Contains(url, PITCHFORK_HOST)
    ensures InferArtistAlbumFromUrl(url) == (None, None)
  {
  }

  /** With `-by-` last placed before `artist`, the last occurrence is that one. */
  lemma LastBySep(album: string, artist: string)
    requires !Contains(artist, BY_SEP) && !StartsWith(artist, "by-")
    ensures RFind(album + BY_SEP + artist, BY_SEP) == Some(|album|)
  {
    var text := album + BY_SEP + artist;
    var a := |album|;
    assert text[a..a + 4] == BY_SEP;
    assert OccursAt(text, BY_SEP, a);
    assert text[a + 1] == 'b' && text[a + 2] == 'y';
    forall j: nat | a < j ensures !OccursAt(text, BY_SEP, j) {
      if j + 4 <= |text| {
        assert text[j..j + 4][0] == text[j];
        if j >= a + 4 {
          assert artist[j - a - 4..j - a] == text[j..j + 4];
          assert !OccursAt(artist, BY_SEP, j - a - 4);
        } else if j == a + 3 {
          assert artist[..3] == text[j + 1..j + 4];
        }
      }
    }
  }

  /** Removing a `-review` the slug ends in, or nothing when it does not end so. */
  lemma RemoveReviewOf(slug: string, s: string, suffix: string)
    requires suffix == [] || suffix == REVIEW_SUFFIX
    requires slug == s + suffix
    requires suffix == [] ==> !EndsWith(s, REVIEW_SUFFIX)
    ensures RemoveSuffix(slug, REVIEW_SUFFIX) == s
  {
    if suffix != [] {
      assert slug[|slug| - |REVIEW_SUFFIX|..] == REVIEW_SUFFIX;
    }
  }

  /**
   * An album-of-the-week slug `<album>-by-<artist>`, with or without a final
   * `-review`, gives the artist and the album with hyphens as spaces,
   * title-cased, as long as the artist part holds no other `-by-`.
   */
  lemma AlbumOfTheWeekBy(slug: string, album: string, artist: string, suffix: string)
    requires suffix == [] || suffix == REVIEW_SUFFIX
    requires slug == album + BY_SEP + artist + suffix
    requires suffix == [] ==> !EndsWith(album + BY_SEP + artist, REVIEW_SUFFIX)
    requires !Contains(artist, BY_SEP) && !StartsWith(artist, "by-")
    ensures FromAlbumOfTheWeekSlug(slug) == Some((Some(Dehyphen(artist)), Some(Dehyphen(album))))
  {
    var s := album + BY_SEP + artist;
    RemoveReviewOf(slug, s, suffix);
    LastBySep(album, artist);
    assert s[..|album|] == album;
    assert s[|album| + |BY_SEP|..] == artist;
  }

  /**
   * Words joined by hyphens, with hyphens as spaces and title-cased, are the
   * title-cased words joined by spaces, and splitting that on whitespace gives
   * the title-cased words.
   */
  lemma DehyphenOfWords(ws: seq<string>)
    requires forall k :: 0 <= k < |ws| ==> ws[k] != [] && '-' !in ws[k] && NoSpace(ws[k])
    ensures Dehyphen(Join("-", ws)) == Join(" ", TitleWords(ws)) == TitleJoin(ws)
    ensures Words(Dehyphen(Join("-", ws))) == TitleWords(ws)
  {
    ReplaceJoin(ws, '-', ' ');
    TitleOfJoin(ws);
    var ts := TitleWords(ws);
    forall k | 0 <= k < |ts| ensures ts[k] != [] && NoSpace(ts[k]) {
      TitleNoSpace(ws[k]);
    }
    WordsOfJoin(ts);
  }

  lemma MarkerPrefixDispatch(prefix: string, album: string, tokens: seq<string>, artist: string, rest: string)
    requires album == Dehyphen(prefix) && tokens == Words(album) && |tokens| >= 1
    requires artist == Title(tokens[0]) && rest == Join(" ", tokens[1..])
    ensures FromMarkerPrefix(prefix) == (Some(artist), Some(if rest != [] then rest else album))
  {
  }

  lemma MarkerWordsFacts(ws: seq<string>)
    requires |ws| >= 2 && forall k :: 0 <= k < |ws| ==> ws[k] != [] && '-' !in ws[k] && NoSpace(ws[k])
    ensures Words(Dehyphen(Join("-", ws))) == TitleWords(ws)
    ensures Title(TitleWords(ws)[0]) == Title(ws[0])
    ensures Join(" ", TitleWords(ws)[1..]) == TitleJoin(ws[1..]) != []
  {
    DehyphenOfWords(ws);
    TitleIdempotent(ws[0]);
    TitleWordsTail(ws);
    JoinLength(" ", ws[1..]);
  }

  lemma TitleWordsTail(ws: seq<string>)
    requires |ws| >= 1
    ensures Join(" ", TitleWords(ws)[1..]) == TitleJoin(ws[1..])
  {
    TitleOfJoin(ws[1..]);
    assert TitleWords(ws)[1..] == TitleWords(ws[1..]);
  }

  /**
   * The marker prefix rule on two or more words joined by `-`: the first
   * word title-cased is the artist, the other words title-cased the album.
   */
  lemma MarkerPrefixOfWords(ws: seq<string>)
    requires |ws| >= 2 && forall k :: 0 <= k < |ws| ==> ws[k] != [] && '-' !in ws[k] && NoSpace(ws[k])
    ensures FromMarkerPrefix(Join("-", ws)) == (Some(Title(ws[0])), Some(TitleJoin(ws[1..])))
  {
    var prefix := Join("-", ws);
    MarkerWordsFacts(ws);
    MarkerPrefixDispatch(prefix, Dehyphen(prefix), TitleWords(ws), Title(ws[0]), TitleJoin(ws[1..]));
  }

  /**
   * The marker prefix rule on a single word: with no other word to be the
   * album, the word title-cased is both the artist and the album.
   */
  lemma MarkerPrefixOfWord(w: string)
    requires w != [] && '-' !in w && NoSpace(w)
    ensures FromMarkerPrefix(w) == (Some(Title(w)), Some(Title(w)))
  {
    var ws := [w];
    assert Join("-", ws) == w;
    DehyphenOfWords(ws);
    TitleIdempotent(w);
    assert Words(Dehyphen(w))[1..] == [];
  }

  /**
   * An album-of-the-week slug text without `-by-` whose first marker starts
   * at `i`: the rule is the marker prefix rule on the text before it.
   */
  lemma AlbumOfTheWeekMarkerOf(s: string, i: nat)
    requires !Contains(s, BY_SEP) && Find(s, AOTW_MARKER) == Some(i)
    ensures i <= |s| && FromAlbumOfTheWeekSlugText(s) == Some(FromMarkerPrefix(s[..i]))
  {
    NoBySepNoRFind(s);
  }

  /**
   * A Quietus URL that is not an article review, and where neither the
   * RateYourMusic nor the AlbumOfTheYear rule applies, takes its answer from
   * the album-of-the-week slug when that slug yields one.
   */
  lemma AlbumOfTheWeekOf(url: string, slug: string)
    requires SearchGroup(SlugPath(AOTW_PATH), url) == Some(slug)
    ensures FromAlbumOfTheWeek(url) == FromAlbumOfTheWeekSlug(slug)
    ensures (Contains(url, QUIETUS_HOST) && (!Contains(url, RYM_HOST) || FromRateYourMusic(url).None?)
      && (!Contains(url, AOTY_HOST) || FromAlbumOfTheYear(url).None?)
      && !ArticleMatches(url) && FromAlbumOfTheWeekSlug(slug).Some?) ==>
      InferArtistAlbumFromUrl(url) == FromAlbumOfTheWeekSlug(slug).value
  {
  }

  lemma NoBySepNoRFind(s: string)
    requires !Contains(s, BY_SEP)
    ensures RFind(s, BY_SEP) == None
  {
    if RFind(s, BY_SEP).Some? {
      ContainsAt(s, BY_SEP, RFind(s, BY_SEP).value);
    }
  }
}
