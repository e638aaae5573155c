/**
 * The self-contained helpers of utils.py: file-name sanitising, duration
 * formatting, text truncation, Discord id parsing, list chunking and
 * de-duplication, extension checks, artist/album from a download path, and
 * integer conversion with a fallback.
 */
module Utils {
  import opened Wrappers
  import opened Text
  import opened Decimal

  /** `BotConstants.MAX_FILENAME_LENGTH` at its default. */
  const MAX_FILENAME_LENGTH: nat := 255

  /** `BotConstants.AUDIO_EXTENSIONS` */
  const AUDIO_EXTENSIONS: seq<string> := [".mp3", ".flac", ".m4a", ".ogg", ".wma", ".aac"]

  /** `BotConstants.IMAGE_EXTENSIONS` */
  const IMAGE_EXTENSIONS: seq<string> := [".jpg", ".jpeg", ".png", ".gif", ".webp"]

  /** The characters `sanitize_filename` replaces with `_`. */
  const INVALID_FILENAME_CHARS: string := "<>:\"/\\|?*"

  const UNKNOWN_NAME: string := "unknown"

  // ---------------------------------------------------------------------------
  // sanitize_filename

  /** Every invalid character replaced by `_`, everything else kept in place. */
  function ReplaceInvalid(s: string): (r: string)
    ensures |r| == |s|
    ensures forall i :: 0 <= i < |s| ==> r[i] == if s[i] in INVALID_FILENAME_CHARS then '_' else s[i]
    ensures NoInvalidChars(r)
  {
    seq(|s|, i requires 0 <= i < |s| => if s[i] in INVALID_FILENAME_CHARS then '_' else s[i])
  }

  /** The sanitised name before the fallback to `unknown`: replace, cut to the maximum length, strip. */
  function SanitizedStem(filename: string): string {
    var replaced := ReplaceInvalid(filename);
    Strip(if |replaced| > MAX_FILENAME_LENGTH then replaced[..MAX_FILENAME_LENGTH] else replaced)
  }

  /** The name `sanitize_filename` produces, with `unknown` for an empty input or an empty result. */
  function Sanitized(filename: string): string {
    if filename == [] then UNKNOWN_NAME
    else
      var stem := SanitizedStem(filename);
      if stem == [] then UNKNOWN_NAME else stem
  }

  predicate NoInvalidChars(s: string) {
    forall i :: 0 <= i < |s| ==> s[i] !in INVALID_FILENAME_CHARS
  }

  /** A name `sanitize_filename` would leave as it is. */
  predicate IsSafeFilename(name: string) {
    && name != []
    && |name| <= MAX_FILENAME_LENGTH
    && IsStripped(name)
    && NoInvalidChars(name)
  }

  lemma NoInvalidCharsStrip(s: string)
    requires NoInvalidChars(s)
    ensures NoInvalidChars(Strip(s))
  {
    StripProperties(s);
    var t := Strip(s);
    forall i | 0 <= i < |t| ensures t[i] !in INVALID_FILENAME_CHARS {
      assert t[i] in t;
    }
  }

  lemma SanitizedStemSafe(filename: string)
    ensures |SanitizedStem(filename)| <= MAX_FILENAME_LENGTH
    ensures IsStripped(SanitizedStem(filename)) && NoInvalidChars(SanitizedStem(filename))
  {
    var replaced := ReplaceInvalid(filename);
    var limited := if |replaced| > MAX_FILENAME_LENGTH then replaced[..MAX_FILENAME_LENGTH] else replaced;
    assert NoInvalidChars(limited);
    NoInvalidCharsStrip(limited);
    StripProperties(limited);
  }

  lemma SanitizedStemOfSpaces(filename: string)
    requires forall i :: 0 <= i < |filename| ==> IsSpace(filename[i])
    ensures SanitizedStem(filename) == []
  {
    var replaced := ReplaceInvalid(filename);
    var limited := if |replaced| > MAX_FILENAME_LENGTH then replaced[..MAX_FILENAME_LENGTH] else replaced;
    assert forall i :: 0 <= i < |limited| ==> limited[i] == filename[i];
    StripProperties(limited);
  }

  lemma UnknownIsSafe()
    ensures IsSafeFilename(UNKNOWN_NAME)
  {
  }

  lemma SanitizedCases(filename: string)
    ensures Sanitized(filename) == UNKNOWN_NAME || (Sanitized(filename) == SanitizedStem(filename) && SanitizedStem(filename) != [])
  {
  }

  lemma SanitizedIsSafe(filename: string)
    ensures IsSafeFilename(Sanitized(filename))
    ensures filename == [] ==> Sanitized(filename) == UNKNOWN_NAME
    ensures (forall i :: 0 <= i < |filename| ==> IsSpace(filename[i])) ==> Sanitized(filename) == UNKNOWN_NAME
  {
    SanitizedCases(filename);
    if Sanitized(filename) == UNKNOWN_NAME {
      UnknownIsSafe();
    } else {
      SanitizedStemSafe(filename);
    }
    if forall i :: 0 <= i < |filename| ==> IsSpace(filename[i]) {
      SanitizedStemOfSpaces(filename);
    }
  }

  /** A safe name is its own sanitised form, so sanitising twice is sanitising once. */
  lemma SanitizedIdempotent(filename: string)
    ensures Sanitized(Sanitized(filename)) == Sanitized(filename)
  {
    var once := Sanitized(filename);
    SanitizedIsSafe(filename);
    assert ReplaceInvalid(once) == once;
    StripOfStripped(once);
  }

  /** `sanitize_filename`, replacing the invalid characters one after the other. */
  method SanitizeFilename(filename: string) returns (r: string)
    ensures r == Sanitized(filename)
    ensures IsSafeFilename(r)
    ensures filename == [] ==> r == UNKNOWN_NAME
  {
    if filename == [] {
      r := UNKNOWN_NAME;
    } else {
      var name := filename;
      for k := 0 to |INVALID_FILENAME_CHARS|
        invariant |name| == |filename|
        invariant forall i :: 0 <= i < |name| ==>
          name[i] == if filename[i] in INVALID_FILENAME_CHARS[..k] then '_' else filename[i]
      {
        assert INVALID_FILENAME_CHARS[..k + 1] == INVALID_FILENAME_CHARS[..k] + [INVALID_FILENAME_CHARS[k]];
        name := Replace(name, INVALID_FILENAME_CHARS[k], '_');
      }
      assert INVALID_FILENAME_CHARS[..|INVALID_FILENAME_CHARS|] == INVALID_FILENAME_CHARS;
      assert name == ReplaceInvalid(filename);
      if |name| > MAX_FILENAME_LENGTH {
        name := name[..MAX_FILENAME_LENGTH];
      }
      var stem := Strip(name);
      assert stem == SanitizedStem(filename);
      r := if stem == [] then UNKNOWN_NAME else stem;
    }
    SanitizedIsSafe(filename);
  }


  // ---------------------------------------------------------------------------
  // format_duration

  /** `f"{n:02d}"`: at least two digits, zero-padded. */
  function Pad2(n: nat): string {
    if n < 10 then "0" + ShowNat(n) else ShowNat(n)
  }

  lemma Pad2Digits(n: nat)
    requires n < 100
    ensures |Pad2(n)| == 2 && AllDigits(Pad2(n)) && ValueOf(Pad2(n)) == n
  {
    ValueOfShowNat(n);
    if n < 10 {
      var p := Pad2(n);
      assert p[..1] == "0";
    } else {
      ShowNatLength(n, 2);
      ShowNatLength(n, 1);
    }
  }

  /** `format_duration(seconds)` */
  function FormatDuration(seconds: int): (r: string)
    ensures seconds <= 0 ==> r == "0:00"
  {
    if seconds <= 0 then "0:00" else ShowNat(seconds / 60) + ":" + Pad2(seconds % 60)
  }

  /** Reads an `M:SS` string back: minutes, one colon, exactly two digits below 60. */
  function ParseDuration(r: string): Option<nat> {
    match Find(r, ":")
    case None => None
    case Some(i) => ParseMinutesSeconds(r[..i], r[i + 1..])
  }

  /** The two sides of the colon: minutes as a numeral, exactly two digits of seconds below 60. */
  function ParseMinutesSeconds(minutes: string, secs: string): Option<nat> {
    if |minutes| >= 1 && AllDigits(minutes) && |secs| == 2 && AllDigits(secs) && ValueOf(secs) < 60
    then Some(60 * ValueOf(minutes) + ValueOf(secs))
    else None
  }

  lemma FindAfterDigits(ds: string, rest: string)
    requires AllDigits(ds)
    ensures Find(ds + ":" + rest, ":") == Some(|ds|)
  {
    var s := ds + ":" + rest;
    assert s[|ds|..|ds| + 1] == ":";
    assert OccursAt(s, ":", |ds|);
    forall j | 0 <= j < |ds| ensures !OccursAt(s, ":", j) {
      assert s[j] == ds[j];
      assert s[j..j + 1][0] == s[j];
    }
  }

  /** With no colon among the minutes, the text splits at the colon written after them. */
  lemma ParseDurationOf(mins: string, secs: string)
    requires AllDigits(mins)
    ensures ParseDuration(mins + ":" + secs) == ParseMinutesSeconds(mins, secs)
  {
    var s := mins + ":" + secs;
    FindAfterDigits(mins, secs);
    assert s[..|mins|] == mins;
    assert s[|mins| + 1..] == secs;
  }

  /** The formatted duration reads back as the number of seconds (0 for a non-positive input). */
  lemma FormatDurationRoundTrip(seconds: int)
    ensures ParseDuration(FormatDuration(seconds)) == Some(if seconds > 0 then seconds else 0)
  {
    var m: nat, ss: nat := if seconds > 0 then seconds / 60 else 0, if seconds > 0 then seconds % 60 else 0;
    var mins, secs := ShowNat(m), Pad2(ss);
    assert FormatDuration(seconds) == mins + ":" + secs by {
      if seconds <= 0 {
        assert ShowNat(0) == "0";
        assert Pad2(0) == "00";
      }
    }
    Pad2Digits(ss);
    ValueOfShowNat(m);
    ParseDurationOf(mins, secs);
    assert 60 * m + ss == (if seconds > 0 then seconds else 0);
  }

  // ---------------------------------------------------------------------------
  // truncate_text

  /** Python's `s[:k]`, where a negative `k` counts from the end. */
  function SliceTo(s: string, k: int): (r: string)
    ensures |r| <= |s| && r == s[..|r|]
    ensures 0 <= k ==> |r| == if k <= |s| then k else |s|
    ensures k < 0 ==> |r| == if |s| + k >= 0 then |s| + k else 0
  {
    if k >= 0 then (if k <= |s| then s[..k] else s)
    else if |s| + k >= 0 then s[..|s| + k] else []
  }

  /** `truncate_text(text, max_length, suffix)` */
  function TruncateText(text: string, maxLength: int, suffix: string): (r: string)
    ensures text == [] || |text| <= maxLength ==> r == text
    ensures text != [] && |suffix| <= maxLength < |text| ==>
      |r| == maxLength && r == text[..maxLength - |suffix|] + suffix
    ensures text != [] && maxLength < |text| && maxLength < |suffix| ==>
      var keep := |text| - (|suffix| - maxLength);
      r == (if keep >= 0 then text[..keep] else []) + suffix
  {
    if text == [] || |text| <= maxLength then text
    else SliceTo(text, maxLength - |suffix|) + suffix
  }

  /** With the default arguments (100 and "..."), the result never exceeds 100 characters. */
  lemma TruncateTextDefault(text: string)
    ensures |TruncateText(text, 100, "...")| <= 100
    ensures |text| > 100 ==> TruncateText(text, 100, "...") == text[..97] + "..."
  {
  }

  // ---------------------------------------------------------------------------
  // parse_discord_mention, validate_discord_id, safe_int

  /** The length of the leading run of ASCII digits. */
  function DigitRun(s: string): (n: nat)
    ensures n <= |s|
    ensures forall i :: 0 <= i < n ==> IsDigit(s[i])
    ensures n < |s| ==> !IsDigit(s[n])
  {
    if s == [] || !IsDigit(s[0]) then 0 else 1 + DigitRun(s[1..])
  }

  /** `s` starts with the mention `<@ds>` or `<@!ds>` of the non-empty digit run `ds`. */
  predicate IsMentionOf(s: string, ds: string) {
    |ds| >= 1 && AllDigits(ds) && (StartsWith(s, "<@" + ds + ">") || StartsWith(s, "<@!" + ds + ">"))
  }

  /**
   * The digits of a mention `<@digits>` or `<@!digits>` at the start of `s`,
   * if any: the result is a mention `s` starts with (and, by
   * `MentionDigitsExact`, every such mention is found).
   */
  function MentionDigits(s: string): (r: Option<string>)
    ensures r.Some? ==> IsMentionOf(s, r.value)
    ensures r.Some? ==> exists k :: 0 <= k < |s| && IsDigit(s[k])
  {
    if !StartsWith(s, "<@") then None
    else
      var body := if StartsWith(s[2..], "!") then s[3..] else s[2..];
      var n := DigitRun(body);
      if 1 <= n < |body| && body[n] == '>' then
        FoundMention(s, if StartsWith(s[2..], "!") then "<@!" else "<@", body, n);
        Some(body[..n])
      else None
  }

  /**
   * What `parse_discord_mention` does: return an id or `None`, or let the
   * `ValueError` of `int()` on the digits of a mention escape.
   */
  datatype MentionOutcome = Parsed(id: Option<int>) | ParseRaises

  /** `s` is `pre`, a run of `n` digits and `>`, then anything: it starts with that mention. */
  lemma FoundMention(s: string, pre: string, body: string, n: nat)
    requires pre == "<@" || pre == "<@!"
    requires s == pre + body && 1 <= n < |body| && body[n] == '>'
    requires forall i :: 0 <= i < n ==> IsDigit(body[i])
    ensures IsMentionOf(s, body[..n])
  {
    assert s[..|pre| + n + 1] == pre + body[..n] + ">";
  }

  /** `parse_discord_mention(mention)` */
  function ParseDiscordMention(mention: string): MentionOutcome {
    if mention == [] then Parsed(None)
    else match MentionDigits(mention)
      case Some(ds) => (match ParseInt(ds) case Some(v) => Parsed(Some(v)) case None => ParseRaises)
      case None => Parsed(ParseInt(mention))
  }

  /** The leading digit run of `ds + ">" + rest` is exactly `ds`. */
  lemma DigitRunBeforeBracket(ds: string, rest: string)
    requires AllDigits(ds)
    ensures DigitRun(ds + ">" + rest) == |ds|
  {
    var body := ds + ">" + rest;
    assert forall j :: 0 <= j < |ds| ==> body[j] == ds[j];
    assert body[|ds|] == '>';
  }

  lemma MentionDigitsOfDigits(body: string, ds: string, rest: string)
    requires |ds| >= 1 && AllDigits(ds) && body == ds + ">" + rest
    ensures var n := DigitRun(body); 1 <= n < |body| && body[n] == '>' && body[..n] == ds
  {
    DigitRunBeforeBracket(ds, rest);
    assert body[..|ds|] == ds;
  }

  lemma MentionDigitsOfBody(s: string, body: string, ds: string, rest: string)
    requires |ds| >= 1 && AllDigits(ds) && body == ds + ">" + rest
    requires s == "<@" + body || s == "<@!" + body
    ensures MentionDigits(s) == Some(ds)
  {
    assert StartsWith(s, "<@") by { assert s[..2] == "<@"; }
    var b := if StartsWith(s[2..], "!") then s[3..] else s[2..];
    assert b == body by {
      if s == "<@" + body {
        assert s[2..] == body;
        assert !StartsWith(body, "!") by { assert body[0] == ds[0]; }
      } else {
        assert s[2..] == "!" + body && s[3..] == body;
      }
    }
    MentionDigitsOfDigits(body, ds, rest);
  }

  /** Whenever `s` starts with a mention, its digits are the ones found. */
  lemma MentionDigitsExact(s: string, ds: string)
    requires IsMentionOf(s, ds)
    ensures MentionDigits(s) == Some(ds)
  {
    var pre := if StartsWith(s, "<@" + ds + ">") then "<@" else "<@!";
    var rest := s[|pre| + |ds| + 1..];
    assert s == pre + (ds + ">" + rest) by {
      assert s[..|pre| + |ds| + 1] == pre + ds + ">";
    }
    MentionDigitsOfBody(s, ds + ">" + rest, ds, rest);
  }

  /** A mention `<@id>` or `<@!id>`, whatever follows it, yields the id. */
  lemma {:induction false} ParseMentionOfId(id: nat, bang: bool, rest: string)
    requires FitsStrDigits(id)
    ensures ParseDiscordMention("<@" + (if bang then "!" else "") + ShowNat(id) + ">" + rest) == Parsed(Some(id))
  {
    var ds := ShowNat(id);
    var body := ds + ">" + rest;
    var s := "<@" + (if bang then "!" else "") + ds + ">" + rest;
    assert s == (if bang then "<@!" else "<@") + body;
    MentionDigitsOfBody(s, body, ds, rest);
    ParseUnsigned(ds);
    ValueOfShowNat(id);
  }

  /** A mention with more digits than `int()` reads raises instead of returning. */
  lemma MentionTooManyDigits(s: string, ds: string)
    requires IsMentionOf(s, ds) && |ds| > MAX_STR_DIGITS
    ensures ParseDiscordMention(s) == ParseRaises
  {
    MentionDigitsExact(s, ds);
    ParseTooManyDigits(ds);
  }

  /** A string that does not start with a mention is read by `int()` alone. */
  lemma ParseMentionOfNonMention(s: string)
    requires forall ds :: !IsMentionOf(s, ds)
    ensures ParseDiscordMention(s) == Parsed(ParseInt(s))
  {
    if s == [] {
      ParseIntNeedsDigit(s);
    }
  }

  /** A plain decimal number, as `str` writes it, yields its value. */
  lemma {:induction false} ParseMentionOfNumber(n: int)
    requires FitsStrDigits(n)
    ensures ParseDiscordMention(ShowInt(n)) == Parsed(Some(n))
  {
    var s := ShowInt(n);
    assert s[0] != '<';
    assert !StartsWith(s, "<@");
    ParseShowInt(n);
  }

  /** A string that does not start with `<` holds no mention. */
  lemma NoBracketNoMention(s: string)
    requires s != [] && s[0] != '<'
    ensures MentionDigits(s) == None
  {
    if |s| >= 2 {
      assert s[..2][0] == s[0];
    }
  }

  /** A string whose stripped text is a sign or digits followed by digits does not start with `<`. */
  lemma StripStartsNotBracket(s: string, t: string)
    requires Strip(s) == t && t != [] && (t[0] == '-' || t[0] == '+' || IsDigit(t[0]))
    ensures s != [] && s[0] != '<'
  {
    var l := LStrip(s);
    StripProperties(s);
    assert t[0] in s;
    if |s| - |l| == 0 {
      assert l == s;
      assert t == s[..|t|];
    }
  }

  /**
   * A number in any form `int()` reads — surrounding whitespace, a sign,
   * leading zeros — yields its value.
   */
  lemma {:induction false} ParseMentionOfNumeral(s: string, sign: string, ds: string)
    requires sign == "" || sign == "+" || sign == "-"
    requires |ds| >= 1 && AllDigits(ds) && |ds| <= MAX_STR_DIGITS
    requires Strip(s) == sign + ds
    ensures ParseDiscordMention(s) == Parsed(Some(if sign == "-" then 0 - ValueOf(ds) else ValueOf(ds)))
  {
    StripStartsNotBracket(s, sign + ds);
    NoBracketNoMention(s);
    ParseSignedNumeral(sign, ds);
  }

  /**
   * A string that is no mention and whose stripped text holds a character
   * `int()` does not read there (not a digit, not an underscore, and not a
   * leading sign) yields `None`.
   */
  lemma ParseMentionStrayChar(s: string, i: nat)
    requires forall ds :: !IsMentionOf(s, ds)
    requires i < |Strip(s)| && !IsDigit(Strip(s)[i]) && Strip(s)[i] != '_'
    requires i == 0 ==> Strip(s)[0] != '-' && Strip(s)[0] != '+'
    ensures ParseDiscordMention(s) == Parsed(None)
  {
    ParseMentionOfNonMention(s);
    var t := Strip(s);
    if t[0] == '-' || t[0] == '+' {
      assert t[1..][i - 1] == t[i];
      assert !IsNumeral(t[1..]);
    } else {
      assert !IsNumeral(t);
    }
  }

  /** A string without a digit is neither a mention nor a number. */
  lemma ParseMentionNeedsDigit(s: string)
    requires forall i :: 0 <= i < |s| ==> !IsDigit(s[i])
    ensures ParseDiscordMention(s) == Parsed(None)
  {
    ParseIntNeedsDigit(s);
  }

  /** `validate_discord_id(discord_id)`: `int()` succeeds and `str()` of it has 17 to 20 characters. */
  predicate ValidateDiscordId(discordId: string) {
    match ParseInt(discordId)
    case None => false
    case Some(v) => 17 <= |ShowInt(v)| <= 20
  }

  /** A decimal numeral is valid exactly when it has 17 to 20 digits. */
  lemma ValidateDiscordIdOfShow(n: nat)
    ensures ValidateDiscordId(ShowNat(n)) <==> 17 <= |ShowNat(n)| <= 20
  {
    if FitsStrDigits(n) {
      ParseShowInt(n);
      assert ShowInt(n) == ShowNat(n);
    } else {
      ParseTooManyDigits(ShowNat(n));
    }
  }

  /** A non-negative id written out in decimal is valid exactly when it lies in [10^16, 10^20). */
  lemma ValidateDiscordIdRange(n: nat)
    ensures ValidateDiscordId(ShowNat(n)) <==> Pow10(16) <= n < Pow10(20)
  {
    ValidateDiscordIdOfShow(n);
    ShowNatLength(n, 16);
    ShowNatLength(n, 20);
  }

  /** The values `safe_int` is given: an `int`, a `str` or `None`. */
  datatype Value = IntValue(i: int) | StrValue(s: string) | NoneValue

  /** `safe_int(value, default)` */
  function SafeInt(value: Value, default: int): int {
    match value
    case IntValue(i) => i
    case StrValue(s) => (match ParseInt(s) case Some(v) => v case None => default)
    case NoneValue => default
  }

  lemma SafeIntCases(n: int, s: string, default: int)
    requires FitsStrDigits(n)
    ensures SafeInt(StrValue(ShowInt(n)), default) == n
    ensures (forall i :: 0 <= i < |s| ==> !IsDigit(s[i])) ==> SafeInt(StrValue(s), default) == default
    ensures AllDigits(s) && |s| > MAX_STR_DIGITS ==> SafeInt(StrValue(s), default) == default
  {
    ParseShowInt(n);
    if forall i :: 0 <= i < |s| ==> !IsDigit(s[i]) {
      ParseIntNeedsDigit(s);
    }
    if AllDigits(s) && |s| > MAX_STR_DIGITS {
      ParseTooManyDigits(s);
    }
  }

  // ---------------------------------------------------------------------------
  // chunk_list

  /** The chunks laid end to end. */
  function Flatten<T>(chunks: seq<seq<T>>): seq<T> {
    if chunks == [] then [] else chunks[0] + Flatten(chunks[1..])
  }

  /** `[lst[i:i + n] for i in range(0, len(lst), n)]` for a positive `n`. */
  function Chunks<T>(lst: seq<T>, n: nat): seq<seq<T>>
    requires n > 0
    decreases |lst|
  {
    if lst == [] then []
    else if |lst| <= n then [lst]
    else [lst[..n]] + Chunks(lst[n..], n)
  }

  /** No chunk is empty or longer than `n`, and every chunk but the last has exactly `n` elements. */
  predicate WellChunked<T>(chunks: seq<seq<T>>, n: nat) {
    && (forall k :: 0 <= k < |chunks| ==> 1 <= |chunks[k]| <= n)
    && (forall k :: 0 <= k < |chunks| - 1 ==> |chunks[k]| == n)
  }

  lemma {:induction false} ChunksSpec<T>(lst: seq<T>, n: nat)
    requires n > 0
    ensures Flatten(Chunks(lst, n)) == lst
    ensures WellChunked(Chunks(lst, n), n)
    decreases |lst|
  {
    if lst == [] {
    } else if |lst| <= n {
      assert Flatten([lst]) == lst + Flatten<T>([]);
    } else {
      ChunksSpec(lst[n..], n);
      var rest := Chunks(lst[n..], n);
      var c := [lst[..n]] + rest;
      assert c[1..] == rest;
      assert Flatten(c) == lst[..n] + lst[n..];
      assert lst[..n] + lst[n..] == lst;
      forall k | 1 <= k < |c| ensures c[k] == rest[k - 1] { }
    }
  }

  /** Well-formed chunks of size `n` are what `Chunks` makes of their concatenation. */
  lemma {:induction false} ChunksOfFlatten<T>(chunks: seq<seq<T>>, n: nat)
    requires n > 0 && WellChunked(chunks, n)
    ensures Chunks(Flatten(chunks), n) == chunks
    decreases |chunks|
  {
    if chunks != [] {
      var rest := chunks[1..];
      assert WellChunked(rest, n) by {
        forall k | 0 <= k < |rest| ensures rest[k] == chunks[k + 1] { }
      }
      ChunksOfFlatten(rest, n);
      var flat := Flatten(chunks);
      assert flat == chunks[0] + Flatten(rest);
      if rest == [] {
        assert flat == chunks[0];
      } else {
        assert Flatten(rest) == rest[0] + Flatten(rest[1..]);
        assert flat[..n] == chunks[0] && flat[n..] == Flatten(rest);
      }
    }
  }

  /** `chunk_list(lst, chunk_size)`: `range` rejects a zero step and yields nothing for a negative one. */
  function ChunkList<T>(lst: seq<T>, chunkSize: int): Option<seq<seq<T>>> {
    if chunkSize == 0 then None
    else if chunkSize < 0 then Some([])
    else Some(Chunks(lst, chunkSize))
  }

  lemma ChunkListSpec<T>(lst: seq<T>, chunkSize: int)
    ensures ChunkList(lst, chunkSize).None? <==> chunkSize == 0
    ensures chunkSize < 0 ==> ChunkList(lst, chunkSize) == Some([])
    ensures chunkSize > 0 ==>
      && Flatten(ChunkList(lst, chunkSize).value) == lst
      && WellChunked(ChunkList(lst, chunkSize).value, chunkSize)
  {
    if chunkSize > 0 {
      ChunksSpec(lst, chunkSize);
    }
  }

  // ---------------------------------------------------------------------------
  // remove_duplicates_preserve_order

  predicate NoDuplicates<T(==)>(s: seq<T>) {
    forall i, j :: 0 <= i < j < |s| ==> s[i] != s[j]
  }

  /** The index of the first occurrence of `x` in `s`. */
  function FirstIndex<T(==)>(s: seq<T>, x: T): (r: nat)
    requires x in s
    ensures r < |s| && s[r] == x
    ensures forall j :: 0 <= j < r ==> s[j] != x
  {
    if s[0] == x then 0 else 1 + FirstIndex(s[1..], x)
  }

  /** The elements of `s` at their first occurrence, in order. */
  function Dedup<T(==)>(s: seq<T>): seq<T> {
    if s == [] then []
    else
      var prefix := s[..|s| - 1];
      if s[|s| - 1] in prefix then Dedup(prefix) else Dedup(prefix) + [s[|s| - 1]]
  }

  lemma FirstIndexIs<T>(s: seq<T>, x: T, k: nat)
    requires k < |s| && s[k] == x && forall j :: 0 <= j < k ==> s[j] != x
    ensures FirstIndex(s, x) == k
  {
  }

  lemma {:induction false} DedupSpec<T>(s: seq<T>)
    ensures forall x :: x in Dedup(s) <==> x in s
    ensures NoDuplicates(Dedup(s))
    ensures forall i, j :: 0 <= i < j < |Dedup(s)| ==> FirstIndex(s, Dedup(s)[i]) < FirstIndex(s, Dedup(s)[j])
    decreases |s|
  {
    if s != [] {
      var prefix, y := s[..|s| - 1], s[|s| - 1];
      assert s == prefix + [y];
      DedupSpec(prefix);
      var d := Dedup(prefix);
      forall x | x in prefix ensures FirstIndex(s, x) == FirstIndex(prefix, x) {
        FirstIndexIs(s, x, FirstIndex(prefix, x));
      }
      forall i | 0 <= i < |d| ensures d[i] in prefix && FirstIndex(s, d[i]) < |prefix| {
        assert d[i] in d;
        FirstIndexIs(s, d[i], FirstIndex(prefix, d[i]));
      }
      if y in prefix {
        assert Dedup(s) == d;
      } else {
        FirstIndexIs(s, y, |prefix|);
        var r := d + [y];
        assert Dedup(s) == r;
        forall i, j | 0 <= i < j < |r| ensures FirstIndex(s, r[i]) < FirstIndex(s, r[j]) {
          assert r[i] == d[i];
          if j < |d| {
            assert r[j] == d[j];
          }
        }
      }
    }
  }

  /** A list without repeats is left as it is. */
  lemma {:induction false} DedupOfDistinct<T>(s: seq<T>)
    requires NoDuplicates(s)
    ensures Dedup(s) == s
    decreases |s|
  {
    if s != [] {
      var prefix := s[..|s| - 1];
      assert NoDuplicates(prefix);
      DedupOfDistinct(prefix);
      assert s[|s| - 1] !in prefix;
      assert prefix + [s[|s| - 1]] == s;
    }
  }

  lemma DedupIdempotent<T>(s: seq<T>)
    ensures Dedup(Dedup(s)) == Dedup(s)
  {
    DedupSpec(s);
    DedupOfDistinct(Dedup(s));
  }

  /** `remove_duplicates_preserve_order(lst)`, remembering the elements already seen in a set. */
  method RemoveDuplicatesPreserveOrder<T(==)>(lst: seq<T>) returns (result: seq<T>)
    ensures result == Dedup(lst)
    ensures NoDuplicates(result)
    ensures forall x :: x in result <==> x in lst
    ensures forall i, j :: 0 <= i < j < |result| ==> FirstIndex(lst, result[i]) < FirstIndex(lst, result[j])
  {
    var seen: set<T> := {};
    result := [];
    for i := 0 to |lst|
      invariant result == Dedup(lst[..i])
      invariant forall x :: x in seen <==> x in lst[..i]
    {
      assert lst[..i + 1][..i] == lst[..i];
      if lst[i] !in seen {
        seen := seen + {lst[i]};
        result := result + [lst[i]];
      }
    }
    assert lst[..|lst|] == lst;
    DedupSpec(lst);
  }

  // ---------------------------------------------------------------------------
  // is_valid_audio_file, is_valid_image_file

  /** `s.endswith(tuple(exts))` */
  predicate EndsWithAny(s: string, exts: seq<string>) {
    exists k :: 0 <= k < |exts| && EndsWith(s, exts[k])
  }

  /** `is_valid_audio_file(filename)` */
  predicate IsValidAudioFile(filename: string) {
    filename != [] && EndsWithAny(Lower(filename), AUDIO_EXTENSIONS)
  }

  /** `is_valid_image_file(filename)` */
  predicate IsValidImageFile(filename: string) {
    filename != [] && EndsWithAny(Lower(filename), IMAGE_EXTENSIONS)
  }

  lemma LowerAppend(a: string, b: string)
    ensures Lower(a + b) == Lower(a) + Lower(b)
  {
  }

  /** Any name whose extension lower-cases to a listed one is accepted, whatever its stem. */
  lemma ExtensionAccepted(stem: string, ext: string, k: nat)
    ensures k < |AUDIO_EXTENSIONS| && Lower(ext) == AUDIO_EXTENSIONS[k] ==> IsValidAudioFile(stem + ext)
    ensures k < |IMAGE_EXTENSIONS| && Lower(ext) == IMAGE_EXTENSIONS[k] ==> IsValidImageFile(stem + ext)
  {
    LowerAppend(stem, ext);
    var low := Lower(stem + ext);
    assert low[|low| - |ext|..] == Lower(ext);
  }

  lemma LowerIdempotent(s: string)
    ensures Lower(Lower(s)) == Lower(s)
  {
  }

  /** The check ignores letter case. */
  lemma ValidFileCaseInsensitive(filename: string)
    ensures IsValidAudioFile(Lower(filename)) == IsValidAudioFile(filename)
    ensures IsValidImageFile(Lower(filename)) == IsValidImageFile(filename)
  {
    LowerIdempotent(filename);
  }

  /** The last two characters of `s`. */
  function LastTwo(s: string): string
    requires |s| >= 2
  {
    [s[|s| - 2], s[|s| - 1]]
  }

  lemma LastTwoOfSuffix(s: string, ext: string)
    requires EndsWith(s, ext) && |ext| >= 2
    ensures LastTwo(s) == LastTwo(ext)
  {
    assert s[|s| - 2] == s[|s| - |ext|..][|ext| - 2];
    assert s[|s| - 1] == s[|s| - |ext|..][|ext| - 1];
  }

  /** The listed audio and image extensions differ in their last two characters. */
  lemma ExtensionsEndDifferently(i: nat, j: nat)
    requires i < |AUDIO_EXTENSIONS| && j < |IMAGE_EXTENSIONS|
    ensures |AUDIO_EXTENSIONS[i]| >= 2 && |IMAGE_EXTENSIONS[j]| >= 2
    ensures LastTwo(AUDIO_EXTENSIONS[i]) != LastTwo(IMAGE_EXTENSIONS[j])
  {
    var audio := seq(|AUDIO_EXTENSIONS|, k requires 0 <= k < |AUDIO_EXTENSIONS| => if |AUDIO_EXTENSIONS[k]| >= 2 then LastTwo(AUDIO_EXTENSIONS[k]) else "");
    assert audio == ["p3", "ac", "4a", "gg", "ma", "ac"];
    var image := seq(|IMAGE_EXTENSIONS|, k requires 0 <= k < |IMAGE_EXTENSIONS| => if |IMAGE_EXTENSIONS[k]| >= 2 then LastTwo(IMAGE_EXTENSIONS[k]) else "");
    assert image == ["pg", "eg", "ng", "if", "bp"];
    assert audio[i] != image[j];
  }

  /** No name is both an audio file and an image file. */
  lemma AudioAndImageDisjoint(filename: string)
    ensures !(IsValidAudioFile(filename) && IsValidImageFile(filename))
  {
    if IsValidAudioFile(filename) && IsValidImageFile(filename) {
      var low := Lower(filename);
      var i :| 0 <= i < |AUDIO_EXTENSIONS| && EndsWith(low, AUDIO_EXTENSIONS[i]);
      var j :| 0 <= j < |IMAGE_EXTENSIONS| && EndsWith(low, IMAGE_EXTENSIONS[j]);
      ExtensionsEndDifferently(i, j);
      LastTwoOfSuffix(low, AUDIO_EXTENSIONS[i]);
      LastTwoOfSuffix(low, IMAGE_EXTENSIONS[j]);
    }
  }

  // ---------------------------------------------------------------------------
  // extract_metadata_from_path

  /** The path components `PurePosixPath` keeps: empty ones and `.` are dropped. */
  function Components(pieces: seq<string>): (r: seq<string>)
    ensures forall k :: 0 <= k < |r| ==> r[k] in pieces && r[k] != [] && r[k] != "."
  {
    if pieces == [] then []
    else (if pieces[0] == [] || pieces[0] == "." then [] else [pieces[0]]) + Components(pieces[1..])
  }

  /** A character that no piece holds is in no component. */
  lemma {:induction false} ComponentsWithout(pieces: seq<string>, c: char)
    requires forall k :: 0 <= k < |pieces| ==> c !in pieces[k]
    ensures forall k :: 0 <= k < |Components(pieces)| ==> c !in Components(pieces)[k]
  {
    if pieces != [] {
      assert c !in pieces[0];
      ComponentsWithout(pieces[1..], c);
      assert forall k :: 0 <= k < |pieces| - 1 ==> pieces[1..][k] == pieces[k + 1];
    }
  }

  /** The anchor of a POSIX path: exactly two leading slashes are kept as `//`, one or three or more as `/`. */
  function Root(path: string): string {
    if StartsWith(path, "//") && !StartsWith(path, "///") then "//"
    else if StartsWith(path, "/") then "/"
    else ""
  }

  /** `PurePosixPath(path).parts` */
  function PathParts(path: string): seq<string> {
    (if Root(path) == [] then [] else [Root(path)]) + Components(Split(path, '/'))
  }

  /** `PurePosixPath(path).name`: the last component, or empty for a bare root or an empty path. */
  function PathName(path: string): string {
    var cs := Components(Split(path, '/'));
    if cs == [] then [] else cs[|cs| - 1]
  }

  const UNKNOWN_ARTIST: string := "Unknown Artist"

  /** `extract_metadata_from_path(path)`: the last two parts, or an unknown artist and the name. */
  function ExtractMetadataFromPath(path: string): (string, string) {
    var parts := PathParts(path);
    if |parts| >= 3 then (parts[|parts| - 2], parts[|parts| - 1])
    else (UNKNOWN_ARTIST, PathName(path))
  }

  lemma PathPartsTail(path: string)
    ensures var parts, cs := PathParts(path), Components(Split(path, '/'));
      |parts| >= 3 ==> |cs| >= 2 && parts[|parts| - 1] == cs[|cs| - 1] && parts[|parts| - 2] == cs[|cs| - 2]
  {
  }

  /** Neither the artist nor the album contains a slash. */
  lemma ExtractMetadataNoSlash(path: string)
    ensures '/' !in ExtractMetadataFromPath(path).0 && '/' !in ExtractMetadataFromPath(path).1
  {
    var cs := Components(Split(path, '/'));
    ComponentsWithout(Split(path, '/'), '/');
    PathPartsTail(path);
  }

  /** A plain path component: non-empty, not `.` and without a slash. */
  predicate IsComponent(c: string) {
    c != [] && c != "." && '/' !in c
  }

  lemma SplitOfLayout(dir: string, artist: string, album: string)
    requires IsComponent(dir) && IsComponent(artist) && IsComponent(album)
    ensures Split("/" + dir + "/" + artist + "/" + album, '/') == [[], dir, artist, album]
  {
    var pieces := [[], dir, artist, album];
    assert Join("/", pieces) == "/" + dir + "/" + artist + "/" + album by {
      assert Join("/", [album]) == album;
      assert Join("/", [artist, album]) == artist + "/" + album;
      assert Join("/", [dir, artist, album]) == dir + "/" + (artist + "/" + album);
    }
    SplitJoin(pieces, '/');
  }

  lemma ComponentsOfLayout(dir: string, artist: string, album: string)
    requires IsComponent(dir) && IsComponent(artist) && IsComponent(album)
    ensures Components([[], dir, artist, album]) == [dir, artist, album]
  {
    assert Components([album]) == [album] by { assert [album][1..] == []; }
    assert Components([artist, album]) == [artist, album] by { assert [artist, album][1..] == [album]; }
    assert Components([dir, artist, album]) == [dir, artist, album] by { assert [dir, artist, album][1..] == [artist, album]; }
    assert [[], dir, artist, album][1..] == [dir, artist, album];
  }

  /** A path starting with one slash followed by something else has the root `/`. */
  lemma RootOfSingleSlash(path: string)
    requires |path| >= 2 && path[0] == '/' && path[1] != '/'
    ensures Root(path) == "/"
  {
    assert path[..1] == "/";
    assert path[..2] != "//" by { assert path[..2][1] == path[1]; }
  }

  /** The download layout `/<dir>/<artist>/<album>` yields the artist and the album. */
  lemma ExtractMetadataOfLayout(dir: string, artist: string, album: string)
    requires IsComponent(dir) && IsComponent(artist) && IsComponent(album)
    ensures ExtractMetadataFromPath("/" + dir + "/" + artist + "/" + album) == (artist, album)
  {
    var path := "/" + dir + "/" + artist + "/" + album;
    assert Components(Split(path, '/')) == [dir, artist, album] by {
      SplitOfLayout(dir, artist, album);
      ComponentsOfLayout(dir, artist, album);
    }
    assert Root(path) == "/" by {
      assert path[0] == '/' && path[1] == dir[0];
      RootOfSingleSlash(path);
    }
    assert PathParts(path) == ["/", dir, artist, album];
  }

  /** A single relative component is an album of an unknown artist. */
  lemma ExtractMetadataOfName(name: string)
    requires IsComponent(name)
    ensures ExtractMetadataFromPath(name) == (UNKNOWN_ARTIST, name)
  {
    SplitNoSep(name, '/');
    assert Components([name]) == [name];
    assert name[0] != '/';
  }
}
