/**
 * `parse_quietus_title` (universal_scraper.py): a Quietus page title such as
 * `Review: Album by Artist | The Quietus` becomes an optional artist and an
 * album. The title goes through four stages in order: the site suffix is cut,
 * a trailing `review` is cut, only the text after the first colon is kept, and
 * the rest is split at ` by `, at a possessive `Artist's Album`, or into
 * whitespace-separated tokens.
 *
 * The regular expressions are modelled as leftmost-match searches; `.` matches
 * any character and `$` only the end of the text.
 */
module QuietusTitle {
  import opened Wrappers
  import opened Text

  /**
   * The apostrophe class of the possessive pattern as the source spells it:
   * `'` and the three characters U+00E2, U+20AC, U+2122, which is what the
   * UTF-8 bytes of U+2019 look like when read as Windows-1252.
   */
  const APOSTROPHES_AS_WRITTEN: set<char> := {'\'', '\U{E2}', '\U{20AC}', '\U{2122}'}

  /** The apostrophe class the pattern evidently means: `'` and the right single quotation mark U+2019. */
  const APOSTROPHES: set<char> := {'\'', '\U{2019}'}

  const SITE_NAME: string := "the quietus"
  const REVIEW: string := "review"
  const BY: string := " by "

  /** Characters that the class `[\w\s]` does not contain. */
  predicate OutsideWordSpace(cs: set<char>) {
    forall c :: c in cs ==> !IsWordChar(c) && !IsSpace(c)
  }

  // ---------------------------------------------------------------------------
  // Stage 1: drop everything from the first `|` that is followed, after optional
  // whitespace, by the site name in any letter case, together with the whitespace before it.

  /** After optional whitespace, `rest` starts with `The Quietus` in any letter case. */
  predicate StartsWithSiteName(rest: string) {
    StartsWith(Lower(LStrip(rest)), SITE_NAME)
  }

  /** A `|` at `p` followed, after optional whitespace, by `The Quietus` in any letter case. */
  predicate SiteSuffixAt(text: string, p: nat) {
    p < |text| && text[p] == '|' && StartsWithSiteName(text[p + 1..])
  }

  /** The first `true` at or after `p`. */
  function FirstMark(marks: seq<bool>, p: nat): (r: Option<nat>)
    ensures r.Some? ==> p <= r.value < |marks| && marks[r.value]
    ensures r.Some? ==> forall q :: p <= q < r.value ==> !marks[q]
    ensures r.None? ==> forall q :: p <= q < |marks| ==> !marks[q]
    decreases |marks| - p
  {
    if p >= |marks| then None
    else if marks[p] then Some(p)
    else FirstMark(marks, p + 1)
  }

  /** For each index of `text`, whether the site suffix starts there. */
  function SiteMarks(text: string): (m: seq<bool>)
    ensures |m| == |text|
    ensures forall q :: 0 <= q < |text| ==> m[q] == SiteSuffixAt(text, q)
  {
    seq(|text|, q requires 0 <= q < |text| => SiteSuffixAt(text, q))
  }

  /** The first `|` that starts the site suffix. */
  function FirstSiteSuffix(text: string): Option<nat> {
    FirstMark(SiteMarks(text), 0)
  }

  /**
   * The leftmost match starts at the whitespace run in front of the first `|`
   * that begins the site suffix and runs to the end, so the text before that
   * whitespace run remains.
   */
  function StripSiteSuffix(text: string): (r: string)
    ensures |r| <= |text| && r == text[..|r|]
  {
    match FirstSiteSuffix(text)
    case None => text
    case Some(p) => assert text[..p][..|RStrip(text[..p])|] == text[..|RStrip(text[..p])|]; RStrip(text[..p])
  }

  lemma LowerSiteName(s: string)
    requires StartsWith(s, "The Quietus")
    ensures StartsWith(Lower(s), SITE_NAME)
  {
    assert Lower(s)[..11] == Lower("The Quietus");
  }

  /**
   * The site suffix starts at the first `|` after which, past optional
   * whitespace, the site name follows; an earlier `|` that is not followed
   * by the site name does not count.
   */
  lemma FirstSiteSuffixAt(text: string, p: nat)
    requires SiteSuffixAt(text, p)
    requires forall q :: 0 <= q < p ==> !SiteSuffixAt(text, q)
    ensures FirstSiteSuffix(text) == Some(p)
  {
    var marks := SiteMarks(text);
    assert marks[p];
    var r := FirstMark(marks, 0);
    assert r.Some? && r.value <= p;
    assert SiteSuffixAt(text, r.value);
  }

  /** `| The Quietus<anything>` qualifies as the site suffix. */
  lemma SiteSuffixOfBar(text: string, p: nat, tail: string)
    requires p < |text| && text[p..] == "| The Quietus" + tail
    ensures SiteSuffixAt(text, p)
  {
    var after := text[p + 1..];
    assert after == " " + ("The Quietus" + tail);
    LStripSpace("The Quietus" + tail);
    LowerSiteName("The Quietus" + tail);
  }

  /** `<t> | The Quietus<anything>` loses the suffix and the whitespace in front of it. */
  lemma StripSiteSuffixOf(t: string, tail: string)
    requires '|' !in t
    ensures StripSiteSuffix(t + " | The Quietus" + tail) == RStrip(t)
  {
    var text := t + " | The Quietus" + tail;
    var p := |t| + 1;
    assert text[p..] == "| The Quietus" + tail;
    SiteSuffixOfBar(text, p, tail);
    assert text[..p] == t + " ";
    forall q | 0 <= q < p ensures !SiteSuffixAt(text, q) {
      assert text[q] == (t + " ")[q];
      if q < |t| {
        assert text[q] in t;
      }
    }
    FirstSiteSuffixAt(text, p);
    RStripSpace(t);
  }

  /** A title without `|` keeps its end. */
  lemma StripSiteSuffixNoBar(text: string)
    requires '|' !in text
    ensures StripSiteSuffix(text) == text
  {
    forall q: nat ensures !SiteSuffixAt(text, q) {
      if q < |text| {
        assert text[q] in text;
      }
    }
  }

  // ---------------------------------------------------------------------------
  // Stage 2: drop a trailing `review`, in any letter case, and the whitespace before it.

  /** The match is the whitespace run in front of a final `review` in any letter case. */
  function StripReviewSuffix(text: string): (r: string)
    ensures |r| <= |text| && r == text[..|r|]
  {
    if |text| >= 7 && Lower(text[|text| - 6..]) == REVIEW && IsSpace(text[|text| - 7])
    then
      assert text[..|text| - 6][..|RStrip(text[..|text| - 6])|] == text[..|RStrip(text[..|text| - 6])|];
      RStrip(text[..|text| - 6])
    else text
  }

  /** `<t> review`, `<t> Review`, … lose the word and the whitespace in front of it. */
  lemma StripReviewSuffixOf(t: string, w: string)
    requires Lower(w) == REVIEW
    ensures StripReviewSuffix(t + " " + w) == RStrip(t)
  {
    var text := t + " " + w;
    assert text[|text| - 6..] == w;
    assert text[|text| - 7] == ' ';
    assert text[..|text| - 6] == t + " ";
    RStripSpace(t);
  }

  /** A title that does not end in `review` is left alone. */
  lemma StripReviewSuffixOther(text: string)
    requires !EndsWith(Lower(text), REVIEW)
    ensures StripReviewSuffix(text) == text
  {
    if |text| >= 7 {
      assert Lower(text)[|text| - 6..] == Lower(text[|text| - 6..]);
    }
  }

  // ---------------------------------------------------------------------------
  // Stage 3: when the text holds a colon, keep the stripped text after the first one.

  function AfterColon(text: string): string {
    match Find(text, ":")
    case None => text
    case Some(i) => Strip(text[i + 1..])
  }

  /** Only the text after the first colon is kept, stripped. */
  lemma AfterColonOf(t: string, u: string)
    requires ':' !in t
    ensures AfterColon(t + ":" + u) == Strip(u)
  {
    var text := t + ":" + u;
    assert text[|t|..|t| + 1] == ":";
    assert OccursAt(text, ":", |t|);
    forall j | 0 <= j < |t| ensures !OccursAt(text, ":", j) {
      assert text[j] == t[j];
      assert text[j..j + 1][0] == text[j];
    }
    assert text[|t| + 1..] == u;
  }

  lemma AfterColonNoColon(text: string)
    requires ':' !in text
    ensures AfterColon(text) == text
  {
    FindAbsentChar(text, ':');
  }

  // ---------------------------------------------------------------------------
  // Stage 4: splitting into artist and album

  /** Where the run of `[\w\s]` characters that starts at `i` ends. */
  function RunEnd(text: string, i: nat): (j: nat)
    requires i <= |text|
    ensures i <= j <= |text|
    ensures forall k :: i <= k < j ==> IsWordChar(text[k]) || IsSpace(text[k])
    ensures j < |text| ==> !IsWordChar(text[j]) && !IsSpace(text[j])
    decreases |text| - i
  {
    if i == |text| || !(IsWordChar(text[i]) || IsSpace(text[i])) then i else RunEnd(text, i + 1)
  }

  /**
   * The second group of the possessive pattern when the `s` sits at `j + 1`:
   * `\s+` takes the whole whitespace run unless that leaves nothing for
   * `(.+)`, in which case it gives back its last character.
   */
  function SecondGroup(text: string, j: nat): (g: string)
    requires j + 2 < |text|
    ensures Strip(g) == Strip(text[j + 2..])
  {
    var tail := text[j + 2..];
    var rest := LStrip(tail);
    if rest != [] then
      assert LStrip(rest) == rest;
      rest
    else
      assert Strip(tail) == [];
      var last := tail[|tail| - 1..];
      assert LStrip(last) == [] by { assert IsSpace(last[0]); }
      last
  }


  /**
   * `([\w\s]+?)[<apostrophes>]s\s+(.+)` matches at `i`. The lazy first group
   * can only end where the `[\w\s]` run ends, because no apostrophe is in
   * that class, and `(.+)` needs at least one character after the whitespace
   * character.
   */
  predicate PossessiveMatchAt(text: string, apostrophes: set<char>, i: nat)
    requires i <= |text|
  {
    var j := RunEnd(text, i);
    i < j && j + 3 < |text| && text[j] in apostrophes && text[j + 1] == 's' && IsSpace(text[j + 2])
  }

  /** `re.search`: the leftmost start, at or after `i`, of a possessive match. */
  function PossessiveFrom(text: string, apostrophes: set<char>, i: nat): (r: Option<nat>)
    requires i <= |text|
    ensures r.Some? ==> i <= r.value < |text| && PossessiveMatchAt(text, apostrophes, r.value)
    ensures r.Some? ==> forall k :: i <= k < r.value ==> !PossessiveMatchAt(text, apostrophes, k)
    ensures r.None? ==> forall k :: i <= k <= |text| ==> !PossessiveMatchAt(text, apostrophes, k)
    decreases |text| - i
  {
    if i == |text| then None
    else if PossessiveMatchAt(text, apostrophes, i) then Some(i)
    else PossessiveFrom(text, apostrophes, i + 1)
  }

  /** The last stage of `parse_quietus_title`, for a given apostrophe class. */
  function SplitArtistAlbum(text: string, apostrophes: set<char>): (Option<string>, string)
  {
    match RFind(text, BY)
    case Some(i) => (Some(Strip(text[i + |BY|..])), Strip(text[..i]))
    case None =>
      match PossessiveFrom(text, apostrophes, 0)
      case Some(k) =>
        var j := RunEnd(text, k);
        (Some(Strip(text[k..j])), Strip(SecondGroup(text, j)))
      case None =>
        var tokens := Words(text);
        if |tokens| >= 2 then (Some(Strip(tokens[0])), Strip(Join(" ", tokens[1..])))
        else (None, Strip(text))
  }

  /** The four stages in order. */
  function ParseTitleWith(text: string, apostrophes: set<char>): (Option<string>, string)
  {
    SplitArtistAlbum(AfterColon(StripReviewSuffix(StripSiteSuffix(text))), apostrophes)
  }

  /** `parse_quietus_title(text)` with the apostrophe class as the source spells it. */
  function ParseQuietusTitleAsWritten(text: string): (Option<string>, string) {
    ParseTitleWith(text, APOSTROPHES_AS_WRITTEN)
  }

  /** `parse_quietus_title(text)` with the apostrophe class it evidently means. */
  function ParseQuietusTitle(text: string): (Option<string>, string) {
    ParseTitleWith(text, APOSTROPHES)
  }

  // ---------------------------------------------------------------------------
  // Properties of the last stage

  lemma NoByNoRFind(text: string)
    requires !Contains(text, BY)
    ensures RFind(text, BY) == None
  {
  }

  /** With ` by ` present, the split is at its last occurrence: the album before it, the artist after it. */
  lemma SplitAtLastBy(album: string, artist: string, apostrophes: set<char>)
    requires !Contains(artist, BY) && !StartsWith(artist, "by ")
    ensures SplitArtistAlbum(album + BY + artist, apostrophes) == (Some(Strip(artist)), Strip(album))
  {
    var text := album + BY + artist;
    var a := |album|;
    assert text[a..a + 4] == BY;
    assert OccursAt(text, BY, a);
    assert text[a + 1] == 'b' && text[a + 2] == 'y';
    forall j: nat | a < j ensures !OccursAt(text, BY, j) {
      if j + 4 <= |text| {
        assert text[j..j + 4][0] == text[j];
        if j >= a + 4 {
          assert artist[j - a - 4..j - a] == text[j..j + 4];
          assert !OccursAt(artist, BY, j - a - 4);
        } else if j == a + 3 {
          assert artist[..3] == text[j + 1..j + 4];
        }
      }
    }
    assert text[a + 4..] == artist;
    assert text[..a] == album;
  }

  predicate AllWordChars(s: string) {
    forall i :: 0 <= i < |s| ==> IsWordChar(s[i])
  }

  lemma SplitOfPossessiveGroups(text: string, apostrophes: set<char>, k: nat)
    requires RFind(text, BY) == None
    requires PossessiveFrom(text, apostrophes, 0) == Some(k)
    ensures RunEnd(text, k) + 2 < |text|
    ensures SplitArtistAlbum(text, apostrophes) ==
      (Some(Strip(text[k..RunEnd(text, k)])), Strip(SecondGroup(text, RunEnd(text, k))))
  {
  }

  /**
   * Without ` by `, a possessive match that starts at `k` and whose run ends
   * at `j` gives the run as the artist and what follows the apostrophe and
   * `s` as the album, both stripped.
   */
  lemma SplitOfPossessive(text: string, apostrophes: set<char>, k: nat, j: nat)
    requires RFind(text, BY) == None
    requires PossessiveFrom(text, apostrophes, 0) == Some(k) && RunEnd(text, k) == j
    ensures j + 2 < |text|
    ensures SplitArtistAlbum(text, apostrophes) == (Some(Strip(text[k..j])), Strip(text[j + 2..]))
  {
    SplitOfPossessiveGroups(text, apostrophes, k);
  }

  lemma SplitOfTokens(text: string, apostrophes: set<char>)
    requires !Contains(text, BY)
    requires PossessiveFrom(text, apostrophes, 0).None?
    ensures var tokens := Words(text);
      SplitArtistAlbum(text, apostrophes) ==
        if |tokens| >= 2 then (Some(Strip(tokens[0])), Strip(Join(" ", tokens[1..]))) else (None, Strip(text))
  {
    NoByNoRFind(text);
  }

  /** A `[\w\s]` run from the start up to `j`, then an apostrophe, `s` and whitespace: the leftmost match starts at 0. */
  lemma PossessiveFromStart(text: string, apostrophes: set<char>, j: nat)
    requires 0 < j && j + 3 < |text|
    requires forall k :: 0 <= k < j ==> IsWordChar(text[k]) || IsSpace(text[k])
    requires text[j] in apostrophes && OutsideWordSpace(apostrophes)
    requires text[j + 1] == 's' && IsSpace(text[j + 2])
    ensures RunEnd(text, 0) == j
    ensures PossessiveFrom(text, apostrophes, 0) == Some(0)
  {
    assert PossessiveMatchAt(text, apostrophes, 0);
  }

  lemma PossessiveTextMatch(text: string, artist: string, c: char, album: string, apostrophes: set<char>)
    requires OutsideWordSpace(apostrophes) && c in apostrophes
    requires artist != [] && forall i :: 0 <= i < |artist| ==> IsWordChar(artist[i]) || IsSpace(artist[i])
    requires album != [] && text == artist + [c] + "s " + album
    ensures PossessiveFrom(text, apostrophes, 0) == Some(0) && RunEnd(text, 0) == |artist|
    ensures text[0..|artist|] == artist && text[|artist| + 2..] == " " + album
  {
    var j := |artist|;
    assert forall k :: 0 <= k < j ==> text[k] == artist[k];
    assert text[j] == c && text[j + 1] == 's' && text[j + 2] == ' ';
    PossessiveFromStart(text, apostrophes, j);
  }

  /**
   * `<artist><apostrophe>s <album>` without ` by ` gives the artist (a run of
   * word characters and whitespace) and the album, both stripped.
   */
  lemma PossessiveOf(text: string, artist: string, c: char, album: string, apostrophes: set<char>)
    requires OutsideWordSpace(apostrophes) && c in apostrophes
    requires artist != [] && forall i :: 0 <= i < |artist| ==> IsWordChar(artist[i]) || IsSpace(artist[i])
    requires album != [] && text == artist + [c] + "s " + album
    requires !Contains(text, BY)
    ensures SplitArtistAlbum(text, apostrophes) == (Some(Strip(artist)), Strip(album))
  {
    PossessiveTextMatch(text, artist, c, album, apostrophes);
    NoByNoRFind(text);
    SplitOfPossessive(text, apostrophes, 0, |artist|);
    LStripSpace(album);
  }

  /** Without any apostrophe of the class in the text, the possessive pattern finds nothing. */
  lemma PossessiveNone(text: string, apostrophes: set<char>)
    requires forall k :: 0 <= k < |text| ==> text[k] !in apostrophes
    ensures PossessiveFrom(text, apostrophes, 0) == None
  {
    forall k | 0 <= k <= |text| ensures !PossessiveMatchAt(text, apostrophes, k) {
      var j := RunEnd(text, k);
      if j < |text| {
        assert text[j] !in apostrophes;
      }
    }
  }

  lemma {:induction false} JoinStripped(ws: seq<string>)
    requires forall k :: 0 <= k < |ws| ==> ws[k] != [] && NoSpace(ws[k])
    ensures IsStripped(Join(" ", ws))
    ensures |ws| >= 1 ==> |Join(" ", ws)| >= 1
    decreases |ws|
  {
    if |ws| > 1 {
      JoinStripped(ws[1..]);
      var j := Join(" ", ws[1..]);
      var s := ws[0] + " " + j;
      assert s[0] == ws[0][0];
      assert s[|s| - 1] == j[|j| - 1];
    }
  }

  /**
   * Without ` by ` and without a possessive, two or more whitespace-separated
   * tokens give the first token as artist and the others, joined by single
   * spaces, as album.
   */
  lemma TokensOf(ws: seq<string>, apostrophes: set<char>)
    requires |ws| >= 2 && forall k :: 0 <= k < |ws| ==> ws[k] != [] && NoSpace(ws[k])
    requires !Contains(Join(" ", ws), BY)
    requires forall i :: 0 <= i < |Join(" ", ws)| ==> Join(" ", ws)[i] !in apostrophes
    ensures SplitArtistAlbum(Join(" ", ws), apostrophes) == (Some(ws[0]), Join(" ", ws[1..]))
  {
    var text := Join(" ", ws);
    PossessiveNone(text, apostrophes);
    SplitOfTokens(text, apostrophes);
    WordsOfJoin(ws);
    StripOfStripped(ws[0]);
    JoinStripped(ws[1..]);
    StripOfStripped(Join(" ", ws[1..]));
  }

  /** A title that is a single token has no artist; the stripped title is the album. */
  lemma SingleTokenOf(text: string, apostrophes: set<char>)
    requires |Words(text)| < 2 && !Contains(text, BY)
    requires forall i :: 0 <= i < |text| ==> text[i] !in apostrophes
    ensures SplitArtistAlbum(text, apostrophes) == (None, Strip(text))
  {
    PossessiveNone(text, apostrophes);
    SplitOfTokens(text, apostrophes);
  }

  lemma IntendedApostrophes()
    ensures OutsideWordSpace(APOSTROPHES) && '\U{2019}' in APOSTROPHES
  {
  }

  lemma WordStripped(s: string)
    requires s != [] && AllWordChars(s)
    ensures Strip(s) == s
  {
    StripOfStripped(s);
  }

  lemma CurlyPossessiveText(text: string, artist: string, album: string)
    requires artist != [] && album != [] && AllWordChars(artist) && AllWordChars(album)
    requires text == artist + "\U{2019}s " + album
    ensures NoSpace(artist + "\U{2019}s") && NoSpace(album)
    ensures text == Join(" ", [artist + "\U{2019}s", album]) && [artist + "\U{2019}s", album][1..] == [album]
    ensures text == artist + ['\U{2019}'] + "s " + album
    ensures forall i :: 0 <= i < |text| ==> text[i] !in APOSTROPHES_AS_WRITTEN && text[i] != '|' && text[i] != ':'
  {
    var possessive := artist + "\U{2019}s";
    assert NoSpace(possessive) by {
      forall i | 0 <= i < |possessive| ensures !IsSpace(possessive[i]) {
        if i < |artist| { assert possessive[i] == artist[i]; }
      }
    }
    forall i | 0 <= i < |text| ensures text[i] !in APOSTROPHES_AS_WRITTEN && text[i] != '|' && text[i] != ':' {
      if i < |artist| {
        assert text[i] == artist[i];
      } else if i >= |artist| + 3 {
        assert text[i] == album[i - |artist| - 3];
      }
    }
  }

  /**
   * As the source spells it, the possessive pattern misses the right single
   * quotation mark: the title falls through to tokens, and the apostrophe and
   * `s` stay with the artist.
   */
  lemma CurlyPossessiveAsWritten(artist: string, album: string)
    requires artist != [] && album != [] && AllWordChars(artist) && AllWordChars(album)
    requires !Contains(artist + "\U{2019}s " + album, BY)
    ensures SplitArtistAlbum(artist + "\U{2019}s " + album, APOSTROPHES_AS_WRITTEN) == (Some(artist + "\U{2019}s"), album)
  {
    var text := artist + "\U{2019}s " + album;
    CurlyPossessiveText(text, artist, album);
    TokensOf([artist + "\U{2019}s", album], APOSTROPHES_AS_WRITTEN);
  }

  /** With the class the pattern means, the possessive splits the artist off. */
  lemma CurlyPossessiveIntended(artist: string, album: string)
    requires artist != [] && album != [] && AllWordChars(artist) && AllWordChars(album)
    requires !Contains(artist + "\U{2019}s " + album, BY)
    ensures SplitArtistAlbum(artist + "\U{2019}s " + album, APOSTROPHES) == (Some(artist), album)
  {
    var text := artist + "\U{2019}s " + album;
    CurlyPossessiveText(text, artist, album);
    IntendedApostrophes();
    PossessiveOf(text, artist, '\U{2019}', album, APOSTROPHES);
    WordStripped(artist);
    WordStripped(album);
  }

  /** A title with no `|`, no colon and no trailing `review` reaches the last stage unchanged. */
  lemma ParsePlainTitle(text: string, apostrophes: set<char>)
    requires '|' !in text && ':' !in text && !EndsWith(Lower(text), REVIEW)
    ensures ParseTitleWith(text, apostrophes) == SplitArtistAlbum(text, apostrophes)
  {
    StripSiteSuffixNoBar(text);
    StripReviewSuffixOther(text);
    AfterColonNoColon(text);
  }

  /**
   * The whole parse of `<artist>’s <album>`: as written, the apostrophe and
   * `s` stay with the artist; as intended, they are split off.
   */
  lemma CurlyPossessiveTitle(artist: string, album: string)
    requires artist != [] && album != [] && AllWordChars(artist) && AllWordChars(album)
    requires !Contains(artist + "\U{2019}s " + album, BY)
    requires !EndsWith(Lower(artist + "\U{2019}s " + album), REVIEW)
    ensures ParseQuietusTitleAsWritten(artist + "\U{2019}s " + album) == (Some(artist + "\U{2019}s"), album)
    ensures ParseQuietusTitle(artist + "\U{2019}s " + album) == (Some(artist), album)
  {
    var text := artist + "\U{2019}s " + album;
    CurlyPossessiveText(text, artist, album);
    assert '|' !in text && ':' !in text;
    ParsePlainTitle(text, APOSTROPHES_AS_WRITTEN);
    ParsePlainTitle(text, APOSTROPHES);
    CurlyPossessiveAsWritten(artist, album);
    CurlyPossessiveIntended(artist, album);
  }
}
