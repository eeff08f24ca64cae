/**
 * The two pure helpers of utils.js the core depends on: `getRemainingTime`,
 * which renders the time left until an unblock instant, and `normalizeUrl`,
 * which turns what the user typed into the host name that is blocked.
 */
module Utils {
  import opened Wrappers
  import opened Strings

  const MsPerMinute := 60000
  const MsPerHour := 3600000
  const MsPerDay := 86400000

  // ---------------------------------------------------------------------------
  // getRemainingTime
  // ---------------------------------------------------------------------------

  /** The whole days, the hours within the day and the minutes within the hour. */
  datatype Span = Span(days: nat, hours: nat, minutes: nat)

  /** The three parts `getRemainingTime` computes from a positive difference in ms. */
  function SplitDiff(diff: nat): Span {
    Span(diff / MsPerDay, (diff / MsPerHour) % 24, (diff / MsPerMinute) % 60)
  }

  /** One part with its unit letter and the space that follows it, or nothing when it is 0. */
  function PartText(n: nat, unit: char): string {
    if n > 0 then NatToString(n) + [unit] + " " else ""
  }

  /**
   * `getRemainingTime(unblockTimestamp)` evaluated at the instant `now`.
   * A missing or zero timestamp gives "", a past one "Soon".
   */
  function RemainingTime(unblockTimestamp: Option<int>, now: int): string {
    if !TruthyNumber(unblockTimestamp) then ""
    else
      var diff := unblockTimestamp.value - now;
      if diff <= 0 then "Soon"
      else
        RenderSpan(SplitDiff(diff))
  }

  /** The text of a positive remaining time, from its parts. */
  function RenderSpan(span: Span): string {
    var remaining := PartText(span.days, 'd') + PartText(span.hours, 'h') + PartText(span.minutes, 'm');
    var trimmed := Trim(remaining);
    if trimmed == "" then "<1m" else trimmed
  }

  /** The independent reading of the format: the non-zero parts, in the order d, h, m. */
  function NonZeroParts(span: Span): seq<string> {
    (if span.days > 0 then [NatToString(span.days) + "d"] else [])
    + (if span.hours > 0 then [NatToString(span.hours) + "h"] else [])
    + (if span.minutes > 0 then [NatToString(span.minutes) + "m"] else [])
  }

  /**
   * The parts are a mixed-radix reading of the difference: hours below 24,
   * minutes below 60, and together they cover `diff` to within one minute.
   */
  lemma SplitDiffBounds(diff: nat)
    ensures var span := SplitDiff(diff);
      && span.hours < 24 && span.minutes < 60
      && span.days * MsPerDay + span.hours * MsPerHour + span.minutes * MsPerMinute <= diff
      && diff < span.days * MsPerDay + span.hours * MsPerHour + span.minutes * MsPerMinute + MsPerMinute
  {
    var q, rm := diff / 60000, diff % 60000;
    assert diff == 60000 * q + rm;
    var qh, m := q / 60, q % 60;
    assert q == 60 * qh + m;
    assert diff == 3600000 * qh + (60000 * m + rm);
    assert diff / 3600000 == qh;
    var qd, h := qh / 24, qh % 24;
    assert qh == 24 * qd + h;
    assert diff == 86400000 * qd + (3600000 * h + 60000 * m + rm);
    assert diff / 86400000 == qd;
  }

  /** Every part followed by a space: the string `getRemainingTime` builds before trimming. */
  function Spaced(parts: seq<string>): string {
    if parts == [] then "" else parts[0] + " " + Spaced(parts[1..])
  }

  lemma {:induction false} SpacedAppend(a: seq<string>, b: seq<string>)
    ensures Spaced(a + b) == Spaced(a) + Spaced(b)
  {
    if a == [] {
      assert a + b == b;
    } else {
      assert (a + b)[0] == a[0];
      assert (a + b)[1..] == a[1..] + b;
      SpacedAppend(a[1..], b);
    }
  }

  predicate WordLike(p: string) {
    p != [] && !IsWhitespace(p[0]) && !IsWhitespace(p[|p| - 1])
  }

  lemma {:induction false} SpacedIsJoinPlusSpace(parts: seq<string>)
    requires parts != [] && forall i :: 0 <= i < |parts| ==> WordLike(parts[i])
    ensures Spaced(parts) == Join(parts, " ") + " "
    ensures var j := Join(parts, " "); WordLike(j) && j[0] == parts[0][0]
  {
    if |parts| > 1 {
      SpacedIsJoinPlusSpace(parts[1..]);
    }
  }

  lemma TrimSpaced(parts: seq<string>)
    requires parts != [] && forall i :: 0 <= i < |parts| ==> WordLike(parts[i])
    ensures Trim(Spaced(parts)) == Join(parts, " ")
  {
    SpacedIsJoinPlusSpace(parts);
    var j := Join(parts, " ");
    var x := j + " ";
    assert x[0] == j[0] && !IsWhitespace(x[0]);
    assert TrimStart(x) == x;
    assert x[..|x| - 1] == j && IsWhitespace(x[|x| - 1]);
    assert TrimEnd(x) == TrimEnd(j);
    assert TrimEnd(j) == j by {
      assert !IsWhitespace(j[|j| - 1]);
    }
  }

  lemma RemainingTextIsSpacedParts(span: Span)
    ensures PartText(span.days, 'd') + PartText(span.hours, 'h') + PartText(span.minutes, 'm')
      == Spaced(NonZeroParts(span))
  {
    var a := if span.days > 0 then [NatToString(span.days) + "d"] else [];
    var b := if span.hours > 0 then [NatToString(span.hours) + "h"] else [];
    var c := if span.minutes > 0 then [NatToString(span.minutes) + "m"] else [];
    SpacedAppend(a, b);
    SpacedAppend(a + b, c);
  }

  lemma NonZeroPartsWordLike(span: Span)
    ensures forall i :: 0 <= i < |NonZeroParts(span)| ==> WordLike(NonZeroParts(span)[i])
    ensures NonZeroParts(span) != [] ==> IsDigit(NonZeroParts(span)[0][0])
  {
    var parts := NonZeroParts(span);
    forall i | 0 <= i < |parts| ensures WordLike(parts[i]) && IsDigit(parts[i][0]) {
      assert IsDigit(parts[i][0]);
    }
  }

  /** The non-zero parts joined by single spaces, or "<1m" when there are none. */
  lemma RenderSpanJoin(span: Span)
    ensures var parts := NonZeroParts(span);
      RenderSpan(span) == if parts == [] then "<1m" else Join(parts, " ")
  {
    var parts := NonZeroParts(span);
    RemainingTextIsSpacedParts(span);
    if parts != [] {
      NonZeroPartsWordLike(span);
      TrimSpaced(parts);
      SpacedIsJoinPlusSpace(parts);
    }
  }

  /**
   * The rendering: "" for a falsy timestamp, "Soon" when the instant has
   * passed, otherwise the non-zero parts joined by single spaces, or "<1m"
   * when no part is non-zero.
   */
  lemma RemainingTimeFormat(unblockTimestamp: Option<int>, now: int)
    ensures !TruthyNumber(unblockTimestamp) ==> RemainingTime(unblockTimestamp, now) == ""
    ensures TruthyNumber(unblockTimestamp) && unblockTimestamp.value - now <= 0
      ==> RemainingTime(unblockTimestamp, now) == "Soon"
    ensures TruthyNumber(unblockTimestamp) && unblockTimestamp.value - now > 0 ==>
      var parts := NonZeroParts(SplitDiff(unblockTimestamp.value - now));
      RemainingTime(unblockTimestamp, now) == if parts == [] then "<1m" else Join(parts, " ")
  {
    if TruthyNumber(unblockTimestamp) && unblockTimestamp.value - now > 0 {
      RenderSpanJoin(SplitDiff(unblockTimestamp.value - now));
    }
  }

  /** "<1m" is shown exactly when less than a minute (and more than nothing) is left. */
  lemma LessThanAMinute(unblockTimestamp: int, now: int)
    requires unblockTimestamp != 0 && unblockTimestamp - now > 0
    ensures RemainingTime(Some(unblockTimestamp), now) == "<1m" <==> unblockTimestamp - now < MsPerMinute
  {
    var diff := unblockTimestamp - now;
    var span := SplitDiff(diff);
    var parts := NonZeroParts(span);
    assert RemainingTime(Some(unblockTimestamp), now) == RenderSpan(span);
    RenderSpanJoin(span);
    SplitDiffBounds(diff);
    if diff >= MsPerMinute {
      assert parts != [];
      NonZeroPartsWordLike(span);
      SpacedIsJoinPlusSpace(parts);
      assert Join(parts, " ")[0] != '<';
    }
  }

  // ---------------------------------------------------------------------------
  // normalizeUrl
  // ---------------------------------------------------------------------------

  /** The input with "http://" in front unless it already starts with "http://" or "https://". */
  function WithScheme(s: string): (r: string)
    ensures StartsWith(r, "http://") || StartsWith(r, "https://")
    ensures r == s <==> StartsWith(s, "http://") || StartsWith(s, "https://")
    ensures r != s ==> r == "http://" + s
  {
    if !StartsWith(s, "http://") && !StartsWith(s, "https://") then "http://" + s else s
  }

  /** The longest prefix of `s` that holds none of the characters in `stops`. */
  function PrefixBefore(s: string, stops: set<char>): (r: string)
    ensures |r| <= |s| && r == s[..|r|]
    ensures forall i :: 0 <= i < |r| ==> r[i] !in stops
    ensures |r| < |s| ==> s[|r|] in stops
  {
    if s == [] || s[0] in stops then [] else [s[0]] + PrefixBefore(s[1..], stops)
  }

  /** What follows the last `c` in `s` (all of `s` when it holds no `c`). */
  function AfterLast(s: string, c: char): (r: string)
    ensures |r| <= |s| && r == s[|s| - |r|..]
    ensures c !in r
    ensures |r| < |s| ==> s[|s| - |r| - 1] == c
  {
    if s == [] || s[|s| - 1] == c then [] else AfterLast(s[..|s| - 1], c) + [s[|s| - 1]]
  }

  predicate IsSlash(c: char) {
    c == '/' || c == '\\'
  }

  /** `s` without its leading run of '/' and '\' (the parser skips them after the scheme). */
  function DropSlashes(s: string): (r: string)
    ensures |r| <= |s| && r == s[|s| - |r|..]
    ensures r == [] || !IsSlash(r[0])
  {
    if s != [] && IsSlash(s[0]) then DropSlashes(s[1..]) else s
  }

  /** Code points a domain may not contain: controls, space and the URL delimiters. */
  predicate IsForbiddenHostChar(c: char) {
    c < ' ' || c == '\U{007F}' || c == ' ' || c == '#' || c == '%' || c == '/' || c == ':'
    || c == '<' || c == '>' || c == '?' || c == '@' || c == '[' || c == '\\' || c == ']'
    || c == '^' || c == '|'
  }

  predicate IsUpperAscii(c: char) {
    'A' <= c <= 'Z'
  }

  function LowerChar(c: char): char {
    if IsUpperAscii(c) then ((c as int) + 32) as char else c
  }

  function ToLowerAscii(s: string): (r: string)
    ensures |r| == |s| && forall i :: 0 <= i < |s| ==> r[i] == LowerChar(s[i])
  {
    seq(|s|, i requires 0 <= i < |s| => LowerChar(s[i]))
  }

  /** What a host name extracted by `HostnameOf` is like. */
  predicate IsHostname(h: string) {
    h != [] && forall i :: 0 <= i < |h| ==> !IsForbiddenHostChar(h[i]) && !IsUpperAscii(h[i])
  }

  /**
   * `new URL(url).hostname` for an http(s) URL, simplified: after the scheme
   * and any slashes, the authority runs to the first '/', '\', '?' or '#';
   * credentials up to the last '@' and a ':port' are dropped; an empty host or
   * one with a forbidden code point fails the parse; ASCII letters are lowered.
   */
  function HostnameOf(url: string): Option<string>
    requires StartsWith(url, "http://") || StartsWith(url, "https://")
  {
    var rest := if StartsWith(url, "https://") then url[8..] else url[7..];
    var host := HostPart(rest);
    if host == [] || HasForbiddenHostChar(host) then None else Some(ToLowerAscii(host))
  }

  /** The text after the scheme, cut down to the host: slashes, path, credentials and port go. */
  function HostPart(rest: string): string {
    var authority := PrefixBefore(DropSlashes(rest), {'/', '\\', '?', '#'});
    PrefixBefore(AfterLast(authority, '@'), {':'})
  }

  predicate HasForbiddenHostChar(s: string) {
    exists i :: 0 <= i < |s| && IsForbiddenHostChar(s[i])
  }

  /** A successful parse yields a non-empty, lower-case host without forbidden code points. */
  lemma HostnameOfIsHostname(url: string)
    requires StartsWith(url, "http://") || StartsWith(url, "https://")
    requires HostnameOf(url).Some?
    ensures IsHostname(HostnameOf(url).value)
  {
    var rest := if StartsWith(url, "https://") then url[8..] else url[7..];
    var host := HostPart(rest);
    var h := ToLowerAscii(host);
    forall i | 0 <= i < |h| ensures !IsForbiddenHostChar(h[i]) && !IsUpperAscii(h[i]) {
      assert !IsForbiddenHostChar(host[i]);
    }
  }

  /** The host name without one leading "www.". */
  function StripWww(h: string): (r: string)
    ensures StartsWith(h, "www.") ==> h == "www." + r
    ensures !StartsWith(h, "www.") ==> r == h
  {
    if StartsWith(h, "www.") then h[4..] else h
  }

  /** `normalizeUrl(urlString)`: `None` is the `null` returned when the URL does not parse. */
  function NormalizeUrl(s: string): Option<string> {
    var host := HostnameOf(WithScheme(s));
    if host.None? then None else Some(StripWww(host.value))
  }

  lemma {:induction false} PrefixBeforeWhole(s: string, stops: set<char>)
    requires forall i :: 0 <= i < |s| ==> s[i] !in stops
    ensures PrefixBefore(s, stops) == s
  {
    if s != [] {
      PrefixBeforeWhole(s[1..], stops);
    }
  }

  lemma AfterLastAbsent(s: string, c: char)
    requires c !in s
    ensures AfterLast(s, c) == s
  {
  }

  lemma HostPartClean(h: string)
    requires IsHostname(h)
    ensures HostPart(h) == h
  {
    assert DropSlashes(h) == h by {
      assert !IsForbiddenHostChar(h[0]);
    }
    PrefixBeforeWhole(h, {'/', '\\', '?', '#'});
    assert '@' !in h by {
      forall i | 0 <= i < |h| ensures h[i] != '@' {
        assert !IsForbiddenHostChar(h[i]);
      }
    }
    AfterLastAbsent(h, '@');
    PrefixBeforeWhole(h, {':'});
  }

  lemma HostnameOfClean(h: string)
    requires IsHostname(h)
    ensures HostnameOf("http://" + h) == Some(h)
  {
    var url := "http://" + h;
    assert !StartsWith(url, "https://") && StartsWith(url, "http://") && url[7..] == h by {
      assert url[4] == ':';
      assert url[..7] == "http://";
    }
    HostPartClean(h);
    assert !HasForbiddenHostChar(h);
    assert ToLowerAscii(h) == h;
  }

  lemma StripWwwKeepsHostname(host: string)
    requires IsHostname(host) && StripWww(host) != ""
    ensures IsHostname(StripWww(host))
  {
    var h := StripWww(host);
    if StartsWith(host, "www.") {
      forall i | 0 <= i < |h| ensures !IsForbiddenHostChar(h[i]) && !IsUpperAscii(h[i]) {
        assert h[i] == host[i + 4];
      }
    }
  }

  lemma HostnameHasNoScheme(h: string)
    requires IsHostname(h)
    ensures WithScheme(h) == "http://" + h
  {
    if |h| >= 7 {
      assert h[..7][4] == h[4];
      assert !IsForbiddenHostChar(h[4]);
    }
    if |h| >= 8 {
      assert h[..8][5] == h[5];
      assert !IsForbiddenHostChar(h[5]);
    }
  }

  /**
   * A normalized host that does not itself start with "www." normalizes to
   * itself, so storing the result of `normalizeUrl` is stable.
   */
  lemma NormalizeUrlFixpoint(s: string, h: string)
    requires NormalizeUrl(s) == Some(h) && h != "" && !StartsWith(h, "www.")
    ensures NormalizeUrl(h) == Some(h)
  {
    HostnameOfIsHostname(WithScheme(s));
    StripWwwKeepsHostname(HostnameOf(WithScheme(s)).value);
    HostnameHasNoScheme(h);
    HostnameOfClean(h);
  }

  /** A normalized host names no scheme, path, port or credentials. */
  lemma NormalizeUrlResult(s: string)
    requires NormalizeUrl(s).Some? && NormalizeUrl(s).value != ""
    ensures IsHostname(NormalizeUrl(s).value)
  {
    HostnameOfIsHostname(WithScheme(s));
    StripWwwKeepsHostname(HostnameOf(WithScheme(s)).value);
  }

  lemma {:induction false} PrefixBeforeStopsAt(s: string, stops: set<char>, k: nat)
    requires k < |s| && s[k] in stops && forall i :: 0 <= i < k ==> s[i] !in stops
    ensures PrefixBefore(s, stops) == s[..k]
  {
    if k > 0 {
      PrefixBeforeStopsAt(s[1..], stops, k - 1);
      assert [s[0]] + s[1..][..k - 1] == s[..k];
    }
  }

  /** The literal `example.com` is a clean host without `www.` (kept apart so the literal is unfolded once). */
  lemma ExampleIsHostname()
    ensures IsHostname("example.com") && !StartsWith("example.com", "www.")
  {
    assert "example.com"[..4][0] == 'e';
  }

  /** A bare host name is kept as it is. */
  lemma NormalizeUrlBareHost()
    ensures NormalizeUrl("example.com") == Some("example.com")
  {
    ExampleIsHostname();
    HostnameHasNoScheme("example.com");
    HostnameOfClean("example.com");
  }

  /** The authority `www.Example.com` has no credentials, port or forbidden character, and lower-cases as expected. */
  lemma ExampleAuthorityClean(authority: string)
    requires authority == "www.Example.com"
    ensures '@' !in authority && ':' !in authority
    ensures forall i :: 0 <= i < |authority| ==> !IsForbiddenHostChar(authority[i])
    ensures ToLowerAscii(authority) == "www.example.com"
  {
  }

  /** The authority of `www.Example.com/path` ends at the first `/`. */
  lemma ExampleAuthority(rest: string)
    requires rest == "www.Example.com/path"
    ensures PrefixBefore(DropSlashes(rest), {'/', '\\', '?', '#'}) == "www.Example.com"
  {
    assert DropSlashes(rest) == rest by {
      assert !IsSlash(rest[0]);
    }
    PrefixBeforeStopsAt(rest, {'/', '\\', '?', '#'}, 15);
    assert rest[..15] == "www.Example.com";
  }

  /** Without `@` or `:`, the authority is the whole host. */
  lemma ExampleUserPort(authority: string)
    requires authority == "www.Example.com"
    ensures PrefixBefore(AfterLast(authority, '@'), {':'}) == authority
  {
    ExampleAuthorityClean(authority);
    AfterLastAbsent(authority, '@');
    PrefixBeforeWhole(authority, {':'});
  }

  /** The host part of `www.Example.com/path`. */
  lemma ExampleHostPart(rest: string)
    requires rest == "www.Example.com/path"
    ensures HostPart(rest) == "www.Example.com"
  {
    ExampleAuthority(rest);
    ExampleUserPort("www.Example.com");
  }

  /** The host name of an https URL with upper case, `www.` and a path. */
  lemma HostnameOfExample()
    ensures HostnameOf("https://www.Example.com/path") == Some("www.example.com")
  {
    var url := "https://www.Example.com/path";
    assert StartsWith(url, "https://");
    assert url[8..] == "www.Example.com/path";
    ExampleHostPart(url[8..]);
    var host := HostPart(url[8..]);
    ExampleAuthorityClean(host);
    assert !HasForbiddenHostChar(host);
  }

  /** Scheme, "www.", upper case and path all go. */
  lemma NormalizeUrlFullUrl()
    ensures NormalizeUrl("https://www.Example.com/path") == Some("example.com")
  {
    var url := "https://www.Example.com/path";
    assert WithScheme(url) == url by {
      assert url[..8] == "https://";
    }
    HostnameOfExample();
    WwwExampleStripped();
  }

  /** Stripping `www.` from the lower-cased example host. */
  lemma WwwExampleStripped()
    ensures StripWww("www.example.com") == "example.com"
  {
    var h := "www.example.com";
    assert h[..4] == "www.";
    assert StartsWith(h, "www.");
    assert h[4..] == "example.com";
  }

  /** An empty input does not parse: `normalizeUrl` gives `null` instead of raising. */
  lemma NormalizeUrlEmpty()
    ensures NormalizeUrl("") == None
  {
    assert WithScheme("") == "http://";
    assert !StartsWith("http://", "https://");
    assert "http://"[7..] == "";
  }
}
