/**
 Scrubbing what the journal keeps: of every web address in a text, only the
 scheme and the host.
 */
module Scrub {
  import opened Prelude

  const DETAIL_LIMIT: nat := 1000

  const ELLIPSIS := '\U{2026}'

  /** White space as Unicode defines it. */
  predicate IsSpace(c: char) {
    var n := c as int;
    || 0x9 <= n <= 0xD || n in {0x20, 0x85, 0xA0, 0x1680} || 0x2000 <= n <= 0x200A
    || n in {0x2028, 0x2029, 0x202F, 0x205F, 0x3000}
  }

  predicate EndsAddress(c: char) {
    IsSpace(c) || c in {'"', '\'', '<', '>', ')', '`'}
  }

  predicate EndsAuthority(c: char) {
    c == '/' || c == '?' || c == '#'
  }

  function Lower(c: char): char {
    if 'A' <= c <= 'Z' then (c as int + 32) as char else c
  }

  /** The length of the `http://` or `https://` that starts at `i`, in any
      case, or 0. */
  function SchemeAt(text: string, i: nat): nat {
    if i + 7 > |text| || Lower(text[i]) != 'h' || Lower(text[i + 1]) != 't' || Lower(text[i + 2]) != 't'
       || Lower(text[i + 3]) != 'p' then 0
    else if text[i + 4] == ':' && text[i + 5] == '/' && text[i + 6] == '/' then 7
    else if i + 8 <= |text| && Lower(text[i + 4]) == 's' && text[i + 5] == ':' && text[i + 6] == '/' && text[i + 7] == '/'
    then 8
    else 0
  }

  /** Where the first web address from `i` on starts. */
  function AddressStart(text: string, i: nat): (start: Option<nat>)
    requires i <= |text|
    ensures start.Some? ==> i <= start.value < |text| && SchemeAt(text, start.value) > 0
    ensures forall k: nat | i <= k < (if start.Some? then start.value else |text|) :: SchemeAt(text, k) == 0
    decreases |text| - i
  {
    if i == |text| then None
    else if SchemeAt(text, i) > 0 then Some(i)
    else AddressStart(text, i + 1)
  }

  function AddressEnd(text: string, i: nat): (end: nat)
    requires i <= |text|
    ensures i <= end <= |text|
    ensures forall k | i <= k < end :: !EndsAddress(text[k])
    ensures end < |text| ==> EndsAddress(text[end])
    decreases |text| - i
  {
    if i == |text| || EndsAddress(text[i]) then i else AddressEnd(text, i + 1)
  }

  function AuthorityEnd(address: string, i: nat): (end: nat)
    requires i <= |address|
    ensures i <= end <= |address|
    ensures forall k | i <= k < end :: !EndsAuthority(address[k])
    ensures end < |address| ==> EndsAuthority(address[end])
    decreases |address| - i
  {
    if i == |address| || EndsAuthority(address[i]) then i else AuthorityEnd(address, i + 1)
  }

  /** Where the host starts: after the last `@` of the authority. */
  function HostStart(address: string, from: nat, end: nat): (start: nat)
    requires from <= end <= |address|
    ensures from <= start <= end
    ensures forall k | start <= k < end :: address[k] != '@'
    ensures start == from || address[start - 1] == '@'
    decreases end
  {
    if end == from || address[end - 1] == '@' then end else HostStart(address, from, end - 1)
  }

  /** Scheme and host of an address, with `/…` for what followed them. */
  function OriginOf(address: string): string
    requires SchemeAt(address, 0) > 0
  {
    var scheme := SchemeAt(address, 0);
    var end := AuthorityEnd(address, scheme);
    address[..scheme] + address[HostStart(address, scheme, end)..end]
    + (if end < |address| then ['/', ELLIPSIS] else [])
  }

  /** The text with each address cut down to its origin. */
  function Scrubbed(text: string): string
    decreases |text|
  {
    var start := AddressStart(text, 0);
    if start.None? then text
    else
      var end := EndOf(text, start.value);
      text[..start.value] + OriginOf(text[start.value..end]) + Scrubbed(text[end..])
  }

  lemma ScrubbedStep(text: string, start: nat)
    requires AddressStart(text, 0) == Some(start)
    ensures var end := EndOf(text, start);
      Scrubbed(text) == text[..start] + OriginOf(text[start..end]) + Scrubbed(text[end..])
  {}

  lemma ScrubbedEnd(text: string)
    requires AddressStart(text, 0).None?
    ensures Scrubbed(text) == text
  {}

  /** Where the address that starts at `i` ends, its scheme included. */
  function EndOf(text: string, i: nat): (end: nat)
    requires SchemeAt(text, i) > 0
    ensures i + SchemeAt(text, i) <= end <= |text|
    ensures SchemeAt(text[i..end], 0) == SchemeAt(text, i)
    ensures forall k | i <= k < end :: !EndsAddress(text[k])
    ensures end < |text| ==> EndsAddress(text[end])
  {
    assert i + SchemeAt(text, i) <= AddressEnd(text, i) by { SchemeHasNoEnd(text, i); }
    AddressEnd(text, i)
  }

  /** No character of a scheme ends an address. */
  lemma SchemeHasNoEnd(text: string, i: nat)
    requires SchemeAt(text, i) > 0
    ensures i + SchemeAt(text, i) <= |text|
    ensures forall k | i <= k < i + SchemeAt(text, i) :: !EndsAddress(text[k])
  {}

  function TrimEnd(text: string): string {
    if text != [] && IsSpace(text[|text| - 1]) then TrimEnd(text[..|text| - 1]) else text
  }

  /** The first `limit` characters, with an ellipsis when some are cut. */
  function Excerpt(text: string, limit: nat): string {
    if |text| <= limit then text else TrimEnd(text[..limit]) + [ELLIPSIS]
  }

  method Scrub(text: string) returns (kept: string)
    ensures kept == Excerpt(Scrubbed(text), DETAIL_LIMIT)
  {
    hide SchemeAt, Scrubbed, OriginOf;
    var clean := [];
    var rest := text;
    var start := AddressStart(rest, 0);
    while start.Some?
      invariant start == AddressStart(rest, 0)
      invariant Scrubbed(text) == clean + Scrubbed(rest)
      decreases |rest|
    {
      ghost var before, was := clean, rest;
      ScrubbedStep(rest, start.value);
      SchemeIsShort(rest, start.value);
      clean := clean + rest[..start.value];
      var end := EndOf(rest, start.value);
      var origin := OriginOf(rest[start.value..end]);
      clean := clean + origin;
      rest := rest[end..];
      assert before + (was[..start.value] + origin + Scrubbed(rest)) == clean + Scrubbed(rest);
      start := AddressStart(rest, 0);
    }
    ScrubbedEnd(rest);
    clean := clean + rest;
    kept := Excerpt(clean, DETAIL_LIMIT);
  }

  // ----- what is left of an address

  predicate EndsHost(c: char) {
    c == '@' || EndsAuthority(c) || EndsAddress(c)
  }

  function HostEnd(text: string, i: nat): (end: nat)
    requires i <= |text|
    ensures i <= end <= |text|
    ensures forall k | i <= k < end :: !EndsHost(text[k])
    ensures end < |text| ==> EndsHost(text[end])
    decreases |text| - i
  {
    if i == |text| || EndsHost(text[i]) then i else HostEnd(text, i + 1)
  }

  predicate IsOver(text: string, i: nat) {
    i >= |text| || EndsAddress(text[i])
  }

  /** The address at `i` shows a host and nothing more: then it is over, or over
      after `/…`. */
  predicate ShowsHostOnly(text: string, i: nat)
    requires SchemeAt(text, i) > 0
  {
    var end := HostEnd(text, i + SchemeAt(text, i));
    || IsOver(text, end)
    || (end + 1 < |text| && text[end] == '/' && text[end + 1] == ELLIPSIS && IsOver(text, end + 2))
  }

  /** Every `http(s)://` of the text shows a host and nothing more. */
  ghost predicate Clean(text: string) {
    forall i: nat | SchemeAt(text, i) > 0 :: ShowsHostOnly(text, i)
  }

  /** The whole of `origin` is a scheme and a host, and maybe `/…`. */
  predicate IsOrigin(origin: string) {
    && SchemeAt(origin, 0) > 0
    && (forall k | 0 <= k < |origin| :: !EndsAddress(origin[k]))
    && (var end := HostEnd(origin, SchemeAt(origin, 0));
        end == |origin| || (end + 2 == |origin| && origin[end] == '/' && origin[end + 1] == ELLIPSIS))
  }

  lemma HostEndIs(text: string, i: nat, end: nat)
    requires i <= end <= |text| && (forall k | i <= k < end :: !EndsHost(text[k]))
    requires end < |text| ==> EndsHost(text[end])
    ensures HostEnd(text, i) == end
    decreases end - i
  {}

  lemma AuthorityEndIs(text: string, i: nat, end: nat)
    requires i <= end <= |text| && (forall k | i <= k < end :: !EndsAuthority(text[k]))
    requires end < |text| ==> EndsAuthority(text[end])
    ensures AuthorityEnd(text, i) == end
    decreases end - i
  {}

  lemma HostStartIs(text: string, from: nat, end: nat)
    requires from <= end <= |text| && forall k | from <= k < end :: text[k] != '@'
    ensures HostStart(text, from, end) == from
    decreases end
  {}

  lemma SchemeStays(a: string, b: string, i: nat)
    requires SchemeAt(a, i) > 0 && i + SchemeAt(a, i) <= |b|
    requires forall k | i <= k < i + SchemeAt(a, i) :: a[k] == b[k]
    ensures SchemeAt(b, i) == SchemeAt(a, i)
  {}

  /** An origin keeps the scheme and a host. */
  lemma OriginIsOrigin(address: string)
    requires SchemeAt(address, 0) > 0
    requires forall k | 0 <= k < |address| :: !EndsAddress(address[k])
    ensures IsOrigin(OriginOf(address))
    ensures SchemeAt(OriginOf(address), 0) == SchemeAt(address, 0)
    ensures forall k | 0 <= k < SchemeAt(address, 0) :: OriginOf(address)[k] == address[k]
  {
    hide SchemeAt;
    var scheme := SchemeAt(address, 0);
    SchemeHasNoEnd(address, 0);
    var end := AuthorityEnd(address, scheme);
    var start := HostStart(address, scheme, end);
    var origin := OriginOf(address);
    SchemeStays(address, origin, 0);
    forall k | scheme <= k < scheme + (end - start) ensures !EndsHost(origin[k]) {
      assert origin[k] == address[start + (k - scheme)];
    }
    HostEndIs(origin, scheme, scheme + (end - start));
  }

  /** What is an origin already is left as it is. */
  lemma OriginStays(origin: string)
    requires IsOrigin(origin)
    ensures OriginOf(origin) == origin
  {
    hide SchemeAt, EndsAddress;
    SchemeHasNoEnd(origin, 0);
    var scheme := SchemeAt(origin, 0);
    var end := HostEnd(origin, scheme);
    AuthorityEndIs(origin, scheme, end);
    HostStartIs(origin, scheme, end);
    assert origin == origin[..scheme] + origin[scheme..end] + origin[end..];
  }

  // ----- where addresses are once pieces are joined

  predicate StartsOver(text: string) {
    text == [] || EndsAddress(text[0])
  }

  /** Shifted by what comes before, an address is the same. */
  lemma SchemeShifts(before: string, text: string, i: nat)
    ensures SchemeAt(before + text, |before| + i) == SchemeAt(text, i)
  {}

  lemma HostEndShifts(before: string, text: string, i: nat)
    requires i <= |text|
    ensures HostEnd(before + text, |before| + i) == |before| + HostEnd(text, i)
  {
    hide EndsHost;
    var whole, end := before + text, HostEnd(text, i);
    forall k | |before| + i <= k < |before| + end ensures !EndsHost(whole[k]) {
      assert whole[k] == text[k - |before|];
    }
    assert end < |text| ==> whole[|before| + end] == text[end];
    HostEndIs(whole, |before| + i, |before| + end);
  }

  lemma ShowsHostOnlyShifts(before: string, text: string, i: nat)
    requires SchemeAt(text, i) > 0
    ensures SchemeAt(before + text, |before| + i) == SchemeAt(text, i)
    ensures ShowsHostOnly(before + text, |before| + i) == ShowsHostOnly(text, i)
  {
    hide SchemeAt, EndsHost, EndsAddress;
    SchemeShifts(before, text, i);
    SchemeHasNoEnd(text, i);
    HostEndShifts(before, text, i + SchemeAt(text, i));
    assert forall k | 0 <= k < |text| :: (before + text)[|before| + k] == text[k];
  }

  /** An origin holds no other address, not even with what comes after it. */
  lemma NoAddressInOrigin(origin: string, after: string, i: nat)
    requires IsOrigin(origin) && StartsOver(after) && 0 < i < |origin|
    ensures SchemeAt(origin + after, i) == 0
  {
    hide EndsAddress, IsSpace;
    var whole, scheme := origin + after, SchemeAt(origin, 0);
    var length := SchemeAt(whole, i);
    assert after != [] ==> whole[|origin|] == after[0];
    if length > 0 {
      SchemeHasNoEnd(whole, i);
      SchemeHasNoEnd(origin, 0);
      if i + length <= |origin| {
        var colon := i + length - 3;
        assert origin[colon] == ':' && origin[colon + 1] == '/' && origin[colon + 2] == '/';
        OnlySchemeHasSlashes(origin, colon);
      }
    }
  }

  lemma OnlySchemeHasSlashes(origin: string, colon: nat)
    requires IsOrigin(origin) && colon + 2 < |origin|
    requires origin[colon] == ':' && origin[colon + 1] == '/' && origin[colon + 2] == '/'
    ensures colon + 3 == SchemeAt(origin, 0)
  {}

  /** Pieces joined as `Scrubbed` joins them: the first address is the origin,
      and the others are those of what comes after it. */
  ghost predicate Joins(before: string, origin: string, after: string) {
    && IsOrigin(origin) && StartsOver(after)
    && forall i: nat | i < |before| :: SchemeAt(before + origin + after, i) == 0
  }

  lemma JoinedAddresses(before: string, origin: string, after: string, i: nat)
    requires Joins(before, origin, after) && SchemeAt(before + origin + after, i) > 0
    ensures i == |before| || (|before| + |origin| <= i && SchemeAt(after, i - |before| - |origin|) > 0)
  {
    hide SchemeAt, IsOrigin;
    assert before + origin + after == before + (origin + after);
    if |before| < i < |before| + |origin| {
      SchemeShifts(before, origin + after, i - |before|);
      NoAddressInOrigin(origin, after, i - |before|);
    } else if |before| + |origin| <= i {
      assert |before + origin| == |before| + |origin|;
      SchemeShifts(before + origin, after, i - |before| - |origin|);
    }
  }

  lemma OriginShows(origin: string, after: string)
    requires IsOrigin(origin) && StartsOver(after)
    ensures SchemeAt(origin + after, 0) == SchemeAt(origin, 0) > 0
    ensures ShowsHostOnly(origin + after, 0)
  {
    hide SchemeAt;
    var whole, scheme := origin + after, SchemeAt(origin, 0);
    SchemeHasNoEnd(origin, 0);
    SchemeStays(origin, whole, 0);
    var end := HostEnd(origin, scheme);
    assert forall k | scheme <= k < end :: whole[k] == origin[k];
    HostEndIs(whole, scheme, end);
  }

  lemma JoinedIsClean(before: string, origin: string, after: string)
    requires Joins(before, origin, after) && Clean(after)
    ensures Clean(before + origin + after)
  {
    hide SchemeAt, ShowsHostOnly, IsOrigin;
    var text := before + origin + after;
    assert text == before + (origin + after);
    forall i: nat | SchemeAt(text, i) > 0 ensures ShowsHostOnly(text, i) {
      JoinedAddresses(before, origin, after, i);
      if i == |before| {
        OriginShows(origin, after);
        ShowsHostOnlyShifts(before, origin + after, 0);
      } else {
        ShowsHostOnlyShifts(before + origin, after, i - |before| - |origin|);
      }
    }
  }

  /** What `Scrubbed` joins. */
  lemma {:induction false} ScrubbedJoins(text: string, start: nat)
    requires AddressStart(text, 0) == Some(start)
    ensures var end := EndOf(text, start);
      Joins(text[..start], OriginOf(text[start..end]), Scrubbed(text[end..]))
    decreases |text|
  {
    hide SchemeAt;
    var end := EndOf(text, start);
    var address, origin, after := text[start..end], OriginOf(text[start..end]), Scrubbed(text[end..]);
    OriginIsOrigin(address);
    ScrubbedStarts(text[end..]);
    SchemeHasNoEnd(origin, 0);
    var joined := text[..start] + origin + after;
    forall i: nat | i < start ensures SchemeAt(joined, i) == 0 {
      if SchemeAt(joined, i) > 0 {
        SchemeIsShort(joined, i);
        SchemeIsShort(address, 0);
        forall k | i <= k < i + SchemeAt(joined, i) ensures text[k] == joined[k] {
          assert start <= k ==> joined[k] == origin[k - start] == address[k - start];
        }
        SchemeStays(joined, text, i);
      }
    }
  }

  lemma SchemeIsShort(text: string, i: nat)
    requires SchemeAt(text, i) > 0
    ensures 7 <= SchemeAt(text, i) <= 8
  {}

  /** Scrubbing a text that starts with a delimiter leaves that one first. */
  lemma ScrubbedStarts(text: string)
    requires StartsOver(text)
    ensures StartsOver(Scrubbed(text))
  {}

  /** In what is scrubbed, every `http(s)://` shows a host and nothing more: no
      new address forms where pieces join. */
  lemma {:induction false} ScrubbedIsClean(text: string)
    ensures Clean(Scrubbed(text))
    decreases |text|
  {
    hide SchemeAt, ShowsHostOnly, Joins;
    var start := AddressStart(text, 0);
    if start.Some? {
      var end := EndOf(text, start.value);
      SchemeIsShort(text, start.value);
      ScrubbedIsClean(text[end..]);
      ScrubbedJoins(text, start.value);
      JoinedIsClean(text[..start.value], OriginOf(text[start.value..end]), Scrubbed(text[end..]));
    } else {
      NoAddressPastEnd(text);
    }
  }

  lemma NoAddressPastEnd(text: string)
    ensures forall i: nat | i >= |text| :: SchemeAt(text, i) == 0
  {}

  lemma CleanAddressIsOrigin(text: string, i: nat)
    requires SchemeAt(text, i) > 0 && ShowsHostOnly(text, i)
    ensures IsOrigin(text[i..EndOf(text, i)])
  {
    hide SchemeAt;
    var scheme, end := SchemeAt(text, i), EndOf(text, i);
    SchemeHasNoEnd(text, i);
    var host := HostEnd(text, i + scheme);
    var address := text[i..end];
    assert EndsAddress('/') == false && EndsAddress(ELLIPSIS) == false;
    assert host <= end;
    assert forall k | scheme <= k < host - i :: address[k] == text[i + k];
    assert host < end ==> address[host - i] == text[host];
    HostEndIs(address, scheme, host - i);
  }

  /** Scrubbing changes a text exactly when some address shows more than its
      host. */
  lemma {:induction false} ScrubbedStays(text: string)
    ensures Clean(text) <==> Scrubbed(text) == text
    decreases |text|
  {
    hide SchemeAt, ShowsHostOnly, IsOrigin, Clean, Scrubbed, OriginOf;
    if Clean(text) {
      var start := AddressStart(text, 0);
      if start.None? {
        ScrubbedEnd(text);
      } else {
        var end := EndOf(text, start.value);
        SchemeIsShort(text, start.value);
        CleanShows(text, start.value);
        CleanAddressIsOrigin(text, start.value);
        OriginStays(text[start.value..end]);
        CleanTail(text, end);
        ScrubbedStays(text[end..]);
        ScrubbedStep(text, start.value);
        assert text[..start.value] + text[start.value..end] + text[end..] == text;
      }
    } else {
      ScrubbedIsClean(text);
    }
  }

  /** Scrubbing twice is scrubbing once. */
  lemma ScrubbedTwice(text: string)
    ensures Scrubbed(Scrubbed(text)) == Scrubbed(text)
  {
    ScrubbedIsClean(text);
    ScrubbedStays(Scrubbed(text));
  }

  // ----- the parts of an address

  /** `http://` or `https://`, in any case. */
  predicate IsScheme(text: string) {
    && (|text| == 7 || |text| == 8)
    && text[0] in {'h', 'H'} && text[1] in {'t', 'T'} && text[2] in {'t', 'T'} && text[3] in {'p', 'P'}
    && (|text| == 8 ==> text[4] in {'s', 'S'})
    && text[|text| - 3..] == "://"
  }

  /** An address by its parts: `user` is what stands before the last `@`, when
      there is one, and `tail` the path, query or fragment. */
  datatype Parts = Parts(scheme: string, user: Option<string>, host: string, tail: string)

  predicate NoneOf(text: string, chars: set<char>) {
    forall i | 0 <= i < |text| :: text[i] !in chars
  }

  predicate AreParts(p: Parts) {
    && IsScheme(p.scheme)
    && (p.user.Some? ==> NoneOf(p.user.value, {'/', '?', '#'}))
    && NoneOf(p.host, {'@', '/', '?', '#'})
    && (p.tail != [] ==> p.tail[0] in {'/', '?', '#'})
  }

  function UserPart(p: Parts): string {
    if p.user.Some? then p.user.value + "@" else ""
  }

  function Written(p: Parts): string {
    p.scheme + UserPart(p) + p.host + p.tail
  }

  /** The scheme and the host, then `/…` for a tail; nothing of the user. */
  function Shown(p: Parts): string {
    p.scheme + p.host + if p.tail != [] then ['/', ELLIPSIS] else []
  }

  lemma SchemeIsWritten(scheme: string, rest: string)
    requires IsScheme(scheme)
    ensures SchemeAt(scheme + rest, 0) == |scheme| > 0
  {
    var n := |scheme|;
    assert scheme[n - 3..][0] == ':' && scheme[n - 3..][1] == '/' && scheme[n - 3..][2] == '/';
  }

  lemma SchemeIsRead(address: string)
    requires SchemeAt(address, 0) > 0
    ensures SchemeAt(address, 0) <= |address| && IsScheme(address[..SchemeAt(address, 0)])
  {}

  /** Where the parts are in the address they make. */
  lemma PartsAreFound(a: string, b: string, c: string, d: string)
    ensures var whole := a + b + c + d;
      && whole == a + (b + c + d)
      && whole[..|a|] == a
      && whole[|a| + |b|..|a| + |b| + |c|] == c
      && (forall k | |a| <= k < |a| + |b| :: whole[k] == b[k - |a|])
      && (forall k | |a| + |b| <= k < |a| + |b| + |c| :: whole[k] == c[k - |a| - |b|])
      && (d != [] ==> whole[|a| + |b| + |c|] == d[0])
  {}

  lemma UserHasNoEnd(p: Parts)
    requires AreParts(p)
    ensures var user := UserPart(p);
      && (forall k | 0 <= k < |user| :: !EndsAuthority(user[k]))
      && (user != [] ==> user[|user| - 1] == '@')
  {
    hide IsScheme;
  }

  lemma HostHasNoEnd(p: Parts)
    requires AreParts(p)
    ensures forall k | 0 <= k < |p.host| :: !EndsAuthority(p.host[k]) && p.host[k] != '@'
    ensures p.tail != [] ==> EndsAuthority(p.tail[0])
  {
    hide IsScheme;
  }

  /** Whatever its user and its tail hold, an address is cut down to its scheme
      and host. */
  lemma OriginByParts(p: Parts)
    requires AreParts(p)
    ensures SchemeAt(Written(p), 0) > 0 && OriginOf(Written(p)) == Shown(p)
  {
    hide SchemeAt, IsScheme, EndsAuthority, UserPart, AuthorityEnd, HostStart, AreParts, Written, OriginOf, Shown;
    var user, address, scheme := UserPart(p), Written(p), |p.scheme|;
    WrittenIs(p);
    PartsAreFound(p.scheme, user, p.host, p.tail);
    UserHasNoEnd(p);
    HostHasNoEnd(p);
    SchemeOfParts(p);
    SchemeIsWritten(p.scheme, user + p.host + p.tail);
    var start, end := scheme + |user|, scheme + |user| + |p.host|;
    AuthorityEndIs(address, scheme, end);
    HostFollowsUser(address, scheme, start, end);
    OriginIsShown(p, address, start, end);
  }

  lemma WrittenIs(p: Parts)
    ensures Written(p) == p.scheme + UserPart(p) + p.host + p.tail
  {}

  lemma SchemeOfParts(p: Parts)
    requires AreParts(p)
    ensures IsScheme(p.scheme)
  {}

  lemma OriginIsShown(p: Parts, address: string, start: nat, end: nat)
    requires SchemeAt(address, 0) == |p.scheme| > 0 && |p.scheme| <= start <= end <= |address|
    requires AuthorityEnd(address, |p.scheme|) == end && HostStart(address, |p.scheme|, end) == start
    requires address[..|p.scheme|] == p.scheme && address[start..end] == p.host && |address| == end + |p.tail|
    ensures OriginOf(address) == Shown(p)
  {
    hide SchemeAt, AuthorityEnd, HostStart;
  }

  lemma {:induction false} HostFollowsUser(address: string, from: nat, start: nat, end: nat)
    requires from <= start <= end <= |address| && forall k | start <= k < end :: address[k] != '@'
    requires start == from || address[start - 1] == '@'
    ensures HostStart(address, from, end) == start
    decreases end
  {
    if start < end {
      HostFollowsUser(address, from, start, end - 1);
    }
  }

  /** Every address has such parts. */
  lemma PartsOf(address: string) returns (p: Parts)
    requires SchemeAt(address, 0) > 0
    ensures AreParts(p) && Written(p) == address
  {
    hide SchemeAt, IsScheme, NoneOf, AuthorityEnd, HostStart, EndsAuthority, Written;
    SchemeIsRead(address);
    var scheme := SchemeAt(address, 0);
    var end := AuthorityEnd(address, scheme);
    var start := HostStart(address, scheme, end);
    AuthorityEnds(address, scheme, end);
    HasNone(address, start, end, {'@', '/', '?', '#'});
    if start == scheme {
      p := Parts(address[..scheme], None, address[start..end], address[end..]);
    } else {
      HasNone(address, scheme, start - 1, {'/', '?', '#'});
      p := Parts(address[..scheme], Some(address[scheme..start - 1]), address[start..end], address[end..]);
    }
    WrittenBack(address, scheme, start, end, p);
  }

  lemma AuthorityEnds(address: string, from: nat, end: nat)
    requires from <= |address| && AuthorityEnd(address, from) == end
    ensures from <= end <= |address|
    ensures forall k | from <= k < end :: address[k] !in {'/', '?', '#'}
    ensures end < |address| ==> address[end] in {'/', '?', '#'}
  {
    hide AuthorityEnd;
  }

  lemma WrittenBack(address: string, scheme: nat, start: nat, end: nat, p: Parts)
    requires scheme <= start <= end <= |address| && (start > scheme ==> address[start - 1] == '@')
    requires p == Parts(address[..scheme], if start == scheme then None else Some(address[scheme..start - 1]),
                        address[start..end], address[end..])
    ensures Written(p) == address
  {
    assert start > scheme ==> address[scheme..start] == address[scheme..start - 1] + "@";
    assert UserPart(p) == address[scheme..start];
    assert address == address[..scheme] + address[scheme..start] + address[start..end] + address[end..];
  }

  lemma HasNone(text: string, from: nat, to: nat, chars: set<char>)
    requires from <= to <= |text| && forall k | from <= k < to :: text[k] !in chars
    ensures NoneOf(text[from..to], chars)
  {}

  /** What ends an address: the twenty-five characters of Unicode's White_Space,
      quotes, angle brackets, a closing parenthesis and a backquote. */
  lemma Delimiters(c: char)
    ensures EndsAddress(c) <==>
      (c as int in {0x9, 0xA, 0xB, 0xC, 0xD, 0x20, 0x85, 0xA0, 0x1680, 0x2000, 0x2001, 0x2002, 0x2003, 0x2004, 0x2005,
                    0x2006, 0x2007, 0x2008, 0x2009, 0x200A, 0x2028, 0x2029, 0x202F, 0x205F, 0x3000}
       || c in "\"'<>)`")
  {
    assert c in "\"'<>)`" <==> c == '"' || c == '\'' || c == '<' || c == '>' || c == ')' || c == '`';
  }

  /** The address has parts of which `shown` keeps the scheme, the host and the
      mark of a tail. */
  ghost predicate ShowsOnlyHostOf(shown: string, address: string) {
    exists p :: AreParts(p) && Written(p) == address && Shown(p) == shown
  }

  // ----- what is not an address is left alone

  /** The text around the addresses, one more than there are of them. */
  function Around(text: string): seq<string>
    decreases |text|
  {
    var start := AddressStart(text, 0);
    if start.None? then [text] else [text[..start.value]] + Around(text[EndOf(text, start.value)..])
  }

  function Addresses(text: string): seq<string>
    decreases |text|
  {
    var start := AddressStart(text, 0);
    if start.None? then []
    else
      var end := EndOf(text, start.value);
      [text[start.value..end]] + Addresses(text[end..])
  }

  /** The first address of joined pieces is the origin among them. */
  lemma JoinedReads(before: string, origin: string, after: string)
    requires Joins(before, origin, after)
    ensures var text := before + origin + after;
      && AddressStart(text, 0) == Some(|before|)
      && EndOf(text, |before|) == |before| + |origin|
  {
    hide SchemeAt, EndsAddress;
    var text := before + origin + after;
    assert text == before + (origin + after);
    SchemeHasNoEnd(origin, 0);
    SchemeStays(origin, origin + after, 0);
    SchemeShifts(before, origin + after, 0);
    var start := AddressStart(text, 0);
    assert start.Some? && start.value == |before|;
    var end := EndOf(text, |before|);
    assert forall k | |before| <= k < |before| + |origin| :: text[k] == origin[k - |before|];
    assert after != [] ==> text[|before| + |origin|] == after[0];
  }

  lemma Reads(text: string, start: nat)
    requires AddressStart(text, 0) == Some(start)
    ensures Around(text) == [text[..start]] + Around(text[EndOf(text, start)..])
    ensures Addresses(text) == [text[start..EndOf(text, start)]] + Addresses(text[EndOf(text, start)..])
  {}

  /** All the text around the addresses is kept, and of each address its scheme
      and host, with `/…` for a tail. */
  lemma {:induction false} ScrubbedKeepsTheRest(text: string)
    ensures Around(Scrubbed(text)) == Around(text)
    ensures |Addresses(Scrubbed(text))| == |Addresses(text)|
    ensures forall k | 0 <= k < |Addresses(text)| :: ShowsOnlyHostOf(Addresses(Scrubbed(text))[k], Addresses(text)[k])
    decreases |text|
  {
    hide SchemeAt, Joins, OriginOf, Scrubbed, Around, Addresses, ShowsOnlyHostOf;
    var start := AddressStart(text, 0);
    if start.None? {
      ScrubbedEnd(text);
      NoAddresses(text);
    } else {
      var end := EndOf(text, start.value);
      SchemeIsShort(text, start.value);
      ScrubbedKeepsTheRest(text[end..]);
      ScrubbedStep(text, start.value);
      ScrubbedJoins(text, start.value);
      var before, origin, after := text[..start.value], OriginOf(text[start.value..end]), Scrubbed(text[end..]);
      OriginShowsHost(text[start.value..end]);
      JoinedReads(before, origin, after);
      Reads(text, start.value);
      var joined := before + origin + after;
      Reads(joined, |before|);
      assert joined[..|before|] == before;
      assert joined[|before|..|before| + |origin|] == origin;
      assert joined[|before| + |origin|..] == after;
    }
  }

  lemma OriginShowsHost(address: string)
    requires SchemeAt(address, 0) > 0
    ensures ShowsOnlyHostOf(OriginOf(address), address)
  {
    hide SchemeAt, OriginOf, AreParts;
    var p := PartsOf(address);
    OriginByParts(p);
  }

  /** An address in a text, up to the delimiter after it, is shown by its scheme
      and host between what is before, where no address starts, and what is
      after, scrubbed too. */
  lemma ScrubbedByParts(before: string, p: Parts, after: string)
    requires AreParts(p) && StartsOver(after) && forall c <- Written(p) :: !EndsAddress(c)
    requires forall i: nat | i < |before| :: SchemeAt(before + Written(p) + after, i) == 0
    ensures Scrubbed(before + Written(p) + after) == before + Shown(p) + Scrubbed(after)
  {
    hide SchemeAt, EndsAddress, OriginOf, Scrubbed, AreParts, Written, Shown;
    var address, text := Written(p), before + Written(p) + after;
    OriginByParts(p);
    SchemeHasNoEnd(address, 0);
    SchemeStays(address, address + after, 0);
    assert text == before + (address + after);
    SchemeShifts(before, address + after, 0);
    var start := AddressStart(text, 0);
    assert start.Some? && start.value == |before|;
    var end := EndOf(text, |before|);
    assert forall k | |before| <= k < |before| + |address| :: text[k] == address[k - |before|];
    assert after != [] ==> text[|before| + |address|] == after[0];
    assert end == |before| + |address|;
    ScrubbedStep(text, |before|);
    assert text[..|before|] == before && text[|before|..end] == address && text[end..] == after;
  }

  lemma NoAddresses(text: string)
    requires AddressStart(text, 0).None?
    ensures Addresses(text) == []
  {}

  // ----- the cut

  /** The address at `i` still shows a host only, or was cut after it. */
  predicate ShowsHostFirst(text: string, i: nat)
    requires SchemeAt(text, i) > 0
  {
    var end := HostEnd(text, i + SchemeAt(text, i));
    IsOver(text, end) || (end + 1 < |text| && text[end] == '/' && text[end + 1] == ELLIPSIS)
  }

  lemma {:induction false} TrimmedIsSpace(text: string)
    ensures TrimEnd(text) <= text && forall k | |TrimEnd(text)| <= k < |text| :: IsSpace(text[k])
    ensures TrimEnd(text) != [] ==> !IsSpace(TrimEnd(text)[|TrimEnd(text)| - 1])
  {
    hide IsSpace;
    if text != [] && IsSpace(text[|text| - 1]) {
      TrimmedIsSpace(text[..|text| - 1]);
    }
  }

  /** A short text is kept whole; of a long one the first `limit` characters, less
      the white space they end with, then an ellipsis. */
  lemma ExcerptKeepsStart(text: string, limit: nat)
    ensures |text| <= limit ==> Excerpt(text, limit) == text
    ensures |text| > limit ==>
              exists n: nat | n <= limit ::
                && Excerpt(text, limit) == text[..n] + [ELLIPSIS]
                && (forall k | n <= k < limit :: IsSpace(text[k]))
                && (n > 0 ==> !IsSpace(text[n - 1]))
  {
    hide IsSpace;
    if |text| > limit {
      TrimmedIsSpace(text[..limit]);
      var n: nat := |TrimEnd(text[..limit])|;
      assert text[..n] == TrimEnd(text[..limit]);
    }
  }

  lemma CutShowsHost(text: string, cut: string, i: nat)
    requires Clean(text) && cut <= text && SchemeAt(cut + [ELLIPSIS], i) > 0
    ensures ShowsHostFirst(cut + [ELLIPSIS], i)
  {
    hide IsSpace;
    var short := cut + [ELLIPSIS];
    var length := SchemeAt(short, i);
    SchemeHasNoEnd(short, i);
    assert short[|cut|] == ELLIPSIS && i + length <= |cut|;
    assert forall k | 0 <= k < |cut| :: short[k] == text[k];
    SchemeStays(short, text, i);
    assert ShowsHostOnly(text, i);
    var end := HostEnd(text, i + length);
    if end < |cut| {
      HostEndIs(short, i + length, end);
    } else {
      EllipsisIsPlain();
      HostEndIs(short, i + length, |short|);
    }
  }

  /** Cutting uncovers nothing: whatever the limit, each address of the text
      kept shows a host, then ends or goes on with `/…`. */
  lemma CutUncoversNothing(text: string, limit: nat, i: nat)
    requires SchemeAt(Excerpt(Scrubbed(text), limit), i) > 0
    ensures ShowsHostFirst(Excerpt(Scrubbed(text), limit), i)
  {
    hide SchemeAt;
    var clean := Scrubbed(text);
    ScrubbedIsClean(text);
    if |clean| <= limit {
      assert ShowsHostOnly(clean, i);
    } else {
      TrimmedIsSpace(clean[..limit]);
      CutShowsHost(clean, TrimEnd(clean[..limit]), i);
    }
  }

  // ----- when the cut is stable

  /** The text ends with the `/…` that closes one of its addresses. */
  ghost predicate EndsWithOrigin(text: string) {
    exists i: nat :: SchemeAt(text, i) > 0 && ClosesAddress(text, i)
  }

  /** The text ends with the `/…` after the host of the address at `i`. */
  predicate ClosesAddress(text: string, i: nat)
    requires SchemeAt(text, i) > 0
  {
    var end := HostEnd(text, i + SchemeAt(text, i));
    end + 2 == |text| && text[end] == '/' && text[end + 1] == ELLIPSIS
  }

  /** What the ellipsis does not continue stays clean. */
  lemma CutIsClean(text: string, cut: string)
    requires Clean(text) && cut <= text && !EndsWithOrigin(cut)
    ensures Clean(cut + [ELLIPSIS])
  {
    hide SchemeAt, IsSpace, EndsAddress;
    var short := cut + [ELLIPSIS];
    EllipsisIsPlain();
    forall i: nat | SchemeAt(short, i) > 0 ensures ShowsHostOnly(short, i) {
      AddressInCut(text, cut, i);
      var from := i + SchemeAt(short, i);
      var end := HostEnd(text, from);
      if end < |cut| {
        assert short[end] == cut[end] == text[end];
        HostEndIs(short, from, end);
        HostEndIs(cut, from, end);
        assert end + 2 == |cut| ==> !ClosesAddress(cut, i);
      } else {
        HostEndIs(short, from, |short|);
      }
    }
  }

  /** An address before the ellipsis is one of the cut, and of the text. */
  lemma AddressInCut(text: string, cut: string, i: nat)
    requires cut <= text && SchemeAt(cut + [ELLIPSIS], i) > 0
    ensures var length := SchemeAt(cut + [ELLIPSIS], i);
      i + length <= |cut| && SchemeAt(text, i) == length && SchemeAt(cut, i) == length
  {
    hide EndsAddress;
    var short := cut + [ELLIPSIS];
    SchemeIsAscii(short, i);
    assert short[|cut|] == ELLIPSIS;
    assert forall k | 0 <= k < |cut| :: short[k] == text[k] == cut[k];
    SchemeStays(short, text, i);
    SchemeStays(short, cut, i);
  }

  lemma SchemeIsAscii(text: string, i: nat)
    requires SchemeAt(text, i) > 0
    ensures i + SchemeAt(text, i) <= |text|
    ensures forall k | i <= k < i + SchemeAt(text, i) :: text[k] != ELLIPSIS
  {}

  /** A text read up to the end of its first address. */
  lemma FirstJoins(text: string, start: nat)
    requires AddressStart(text, 0) == Some(start) && ShowsHostOnly(text, start)
    ensures var end := EndOf(text, start);
      && text == text[..start] + text[start..end] + text[end..] == text[..end] + text[end..]
      && Joins(text[..start], text[start..end], text[end..])
  {
    hide SchemeAt, EndsAddress, IsOrigin, ShowsHostOnly;
    CleanAddressIsOrigin(text, start);
    var end := EndOf(text, start);
    assert text == text[..start] + text[start..end] + text[end..];
  }

  lemma ClosesAddressShifts(before: string, text: string, i: nat)
    requires SchemeAt(text, i) > 0
    ensures SchemeAt(before + text, |before| + i) == SchemeAt(text, i)
    ensures ClosesAddress(before + text, |before| + i) == ClosesAddress(text, i)
  {
    hide SchemeAt, EndsHost, EndsAddress;
    SchemeShifts(before, text, i);
    SchemeHasNoEnd(text, i);
    HostEndShifts(before, text, i + SchemeAt(text, i));
    assert forall k | 0 <= k < |text| :: (before + text)[|before| + k] == text[k];
  }

  /** Past the first address, the one that closes the text is still there. */
  lemma ClosingIsFurther(text: string, start: nat, i: nat)
    requires AddressStart(text, 0) == Some(start) && ShowsHostOnly(text, start)
    requires SchemeAt(text, i) > 0 && ClosesAddress(text, i)
    ensures var end := EndOf(text, start);
      if end == |text| then i == start
      else i >= end && SchemeAt(text[end..], i - end) > 0 && ClosesAddress(text[end..], i - end)
  {
    hide SchemeAt, EndsAddress, Joins, ClosesAddress, ShowsHostOnly;
    var end := EndOf(text, start);
    FirstJoins(text, start);
    JoinedAddresses(text[..start], text[start..end], text[end..], i);
    NoAddressPastEnd(text);
    if i == start {
      ClosingEndsAddress(text, i);
    } else {
      ClosesAddressShifts(text[..end], text[end..], i - end);
    }
  }

  /** The address that closes the text runs to its end. */
  lemma ClosingEndsAddress(text: string, i: nat)
    requires SchemeAt(text, i) > 0 && ClosesAddress(text, i)
    ensures EndOf(text, i) == |text|
  {
    hide SchemeAt, IsSpace;
    EllipsisIsPlain();
    SchemeHasNoEnd(text, i);
    var end := EndOf(text, i);
    var host := HostEnd(text, i + SchemeAt(text, i));
    assert forall k | i + SchemeAt(text, i) <= k < host :: !EndsAddress(text[k]);
    assert !EndsAddress(text[host]) && !EndsAddress(text[host + 1]);
  }

  lemma DroppedHere(cut: string, start: nat)
    requires AddressStart(cut, 0) == Some(start) && ClosesAddress(cut, start)
    ensures Scrubbed(cut + [ELLIPSIS]) == cut
  {
    hide SchemeAt, Scrubbed, OriginOf, ClosesAddress, EndsAddress;
    SameStart(cut, start);
    ScrubbedStep(cut + [ELLIPSIS], start);
    ClosedOrigin(cut, start);
  }

  lemma DroppedFurther(cut: string, start: nat)
    requires AddressStart(cut, 0) == Some(start) && ShowsHostOnly(cut, start)
    requires var end := EndOf(cut, start);
      end < |cut| && Scrubbed(cut[end..] + [ELLIPSIS]) == cut[end..]
    ensures Scrubbed(cut + [ELLIPSIS]) == cut
  {
    hide SchemeAt, Scrubbed, OriginOf, ShowsHostOnly, EndsAddress, IsOrigin;
    var short, end := cut + [ELLIPSIS], EndOf(cut, start);
    SameStart(cut, start);
    SameEnd(cut, start);
    ScrubbedStep(short, start);
    CleanAddressIsOrigin(cut, start);
    OriginStays(cut[start..end]);
    assert short[..start] == cut[..start] && short[start..end] == cut[start..end];
    assert short[end..] == cut[end..] + [ELLIPSIS];
    assert cut[..start] + cut[start..end] + cut[end..] == cut;
  }

  lemma AddressIsFound(text: string, i: nat)
    requires SchemeAt(text, i) > 0
    ensures AddressStart(text, 0).Some?
  {
    hide SchemeAt;
    SchemeHasNoEnd(text, i);
  }

  /** A cut that falls right after a `/…` loses the ellipsis added to it. */
  lemma {:induction false} EllipsisIsDropped(cut: string)
    requires Clean(cut) && EndsWithOrigin(cut)
    ensures Scrubbed(cut + [ELLIPSIS]) == cut
    decreases |cut|
  {
    hide SchemeAt, Scrubbed, Clean, ShowsHostOnly, ClosesAddress, EndsAddress;
    var i: nat :| SchemeAt(cut, i) > 0 && ClosesAddress(cut, i);
    AddressIsFound(cut, i);
    var start := AddressStart(cut, 0).value;
    CleanShows(cut, start);
    ClosingIsFurther(cut, start, i);
    var end := EndOf(cut, start);
    if end == |cut| {
      DroppedHere(cut, start);
    } else {
      SchemeIsShort(cut, start);
      CleanTail(cut, end);
      EllipsisIsDropped(cut[end..]);
      DroppedFurther(cut, start);
    }
  }

  lemma CleanShows(text: string, i: nat)
    requires Clean(text) && SchemeAt(text, i) > 0
    ensures ShowsHostOnly(text, i)
  {}

  lemma CleanTail(text: string, end: nat)
    requires Clean(text) && end <= |text|
    ensures Clean(text[end..])
  {
    hide SchemeAt, ShowsHostOnly;
    assert text == text[..end] + text[end..];
    forall i: nat | SchemeAt(text[end..], i) > 0 ensures ShowsHostOnly(text[end..], i) {
      ShowsHostOnlyShifts(text[..end], text[end..], i);
    }
  }

  /** The ellipsis starts no address. */
  lemma SameStart(cut: string, start: nat)
    requires AddressStart(cut, 0) == Some(start)
    ensures AddressStart(cut + [ELLIPSIS], 0) == Some(start)
    ensures SchemeAt(cut + [ELLIPSIS], start) == SchemeAt(cut, start)
  {
    hide SchemeAt;
    var short := cut + [ELLIPSIS];
    SchemeHasNoEnd(cut, start);
    SchemeStays(cut, short, start);
    forall k: nat | k < start ensures SchemeAt(short, k) == 0 {
      if SchemeAt(short, k) > 0 {
        AddressInCut(cut, cut, k);
      }
    }
    var found := AddressStart(short, 0);
    assert found.Some? && found.value == start;
  }

  lemma SameEnd(cut: string, start: nat)
    requires SchemeAt(cut, start) > 0 && SchemeAt(cut + [ELLIPSIS], start) > 0 && EndOf(cut, start) < |cut|
    ensures EndOf(cut + [ELLIPSIS], start) == EndOf(cut, start)
  {
    hide SchemeAt, EndsAddress;
    var short, end := cut + [ELLIPSIS], EndOf(cut, start);
    assert forall k | start <= k <= end :: short[k] == cut[k];
    var found := EndOf(short, start);
  }

  /** The last address, closed by `/…` and continued by the ellipsis. */
  lemma ClosedOrigin(cut: string, start: nat)
    requires SchemeAt(cut, start) > 0 && SchemeAt(cut + [ELLIPSIS], start) == SchemeAt(cut, start)
    requires ClosesAddress(cut, start)
    ensures EndOf(cut + [ELLIPSIS], start) == |cut| + 1
    ensures OriginOf((cut + [ELLIPSIS])[start..|cut| + 1]) == cut[start..]
    ensures (cut + [ELLIPSIS])[|cut| + 1..] == [] && Scrubbed([]) == []
    ensures (cut + [ELLIPSIS])[..start] + cut[start..] + [] == cut
  {
    hide SchemeAt, IsSpace, ClosesAddress, OriginOf, EndsAddress;
    EllipsisIsPlain();
    ScrubbedNothing();
    var short := cut + [ELLIPSIS];
    ClosingEndsAddress(cut, start);
    var found := EndOf(short, start);
    assert forall k | start <= k < |cut| :: short[k] == cut[k] && !EndsAddress(cut[k]);
    assert found == |short|;
    SchemeHasNoEnd(cut, start);
    ClosesAddressShifts(cut[..start], cut[start..], 0) by {
      assert cut == cut[..start] + cut[start..];
      AddressAlone(cut, start);
    }
    AddressAlone(cut, start);
    assert cut == cut[..start] + cut[start..];
    assert short[start..found] == cut[start..] + [ELLIPSIS];
    ContinuedOrigin(cut[start..]);
  }

  lemma AddressAlone(text: string, i: nat)
    requires SchemeAt(text, i) > 0
    ensures i <= |text| && SchemeAt(text[i..], 0) == SchemeAt(text, i)
  {
    hide SchemeAt;
    SchemeHasNoEnd(text, i);
    var found := EndOf(text, i);
    SchemeHasNoEnd(text[i..found], 0);
    SchemeStays(text[i..found], text[i..], 0);
  }

  /** An address closed by `/…` takes what follows for its path. */
  lemma ContinuedOrigin(address: string)
    requires SchemeAt(address, 0) > 0 && ClosesAddress(address, 0)
    ensures SchemeAt(address + [ELLIPSIS], 0) > 0 && OriginOf(address + [ELLIPSIS]) == address
  {
    hide SchemeAt, EndsAddress;
    var longer, scheme := address + [ELLIPSIS], SchemeAt(address, 0);
    SchemeHasNoEnd(address, 0);
    SchemeStays(address, longer, 0);
    var host := HostEnd(address, scheme);
    assert forall k | scheme <= k < host :: longer[k] == address[k] && !EndsHost(address[k]);
    AuthorityEndIs(longer, scheme, host);
    HostStartIs(longer, scheme, host);
    assert address == address[..scheme] + address[scheme..host] + ['/', ELLIPSIS];
  }

  lemma {:induction false} TrimEndTwice(text: string)
    ensures TrimEnd(TrimEnd(text)) == TrimEnd(text)
    ensures |TrimEnd(text)| <= |text|
  {
    if text != [] && IsSpace(text[|text| - 1]) {
      TrimEndTwice(text[..|text| - 1]);
    }
  }

  /** An excerpt cut no further is its own excerpt. */
  lemma ExcerptTwice(text: string, limit: nat)
    ensures Excerpt(Excerpt(text, limit), limit) == Excerpt(text, limit)
  {
    hide IsSpace;
    if |text| > limit {
      TrimEndTwice(text[..limit]);
      var cut := TrimEnd(text[..limit]);
      assert |cut| == limit ==> (cut + [ELLIPSIS])[..limit] == cut;
    }
  }

  /** A cut that closes an address holds no other that is not over. */
  lemma ClosedCutIsClean(text: string, cut: string)
    requires Clean(text) && cut <= text && EndsWithOrigin(cut)
    ensures Clean(cut)
  {
    hide SchemeAt, IsSpace, EndsAddress;
    EllipsisIsPlain();
    forall i: nat | SchemeAt(cut, i) > 0 ensures ShowsHostOnly(cut, i) {
      SchemeHasNoEnd(cut, i);
      SchemeStays(cut, text, i);
      var from := i + SchemeAt(cut, i);
      var end := HostEnd(text, from);
      assert ShowsHostOnly(text, i);
      assert cut[|cut| - 1] == ELLIPSIS;
      if end < |cut| {
        assert cut[end] == text[end];
        HostEndIs(cut, from, end);
      } else {
        HostEndIs(cut, from, |cut|);
      }
    }
  }

  /** Scrubbing with its cut is stable exactly when nothing was cut, or the cut
      did not fall right after the `/…` of an address. */
  lemma CutIsStableExactlyWhen(text: string, limit: nat)
    ensures var clean := Scrubbed(text);
      var once := Excerpt(clean, limit);
      Excerpt(Scrubbed(once), limit) == once <==>
        |clean| <= limit || !EndsWithOrigin(TrimEnd(clean[..limit]))
  {
    hide Scrubbed, Clean, EndsWithOrigin;
    var clean := Scrubbed(text);
    ScrubbedIsClean(text);
    ScrubbedTwice(text);
    ExcerptTwice(clean, limit);
    if |clean| > limit {
      var cut := TrimEnd(clean[..limit]);
      TrimmedIsSpace(clean[..limit]);
      if EndsWithOrigin(cut) {
        ClosedCutIsClean(clean, cut);
        EllipsisIsDropped(cut);
      } else {
        CutIsClean(clean, cut);
        ScrubbedStays(cut + [ELLIPSIS]);
      }
    }
  }

  lemma EllipsisIsPlain()
    ensures !EndsHost(ELLIPSIS) && !IsSpace(ELLIPSIS) && !EndsAddress(ELLIPSIS) && !EndsAddress('/')
  {}

  const ORIGIN: string := "http://h/" + [ELLIPSIS]

  function Pad(): string {
    seq(990, _ => 'x')
  }

  lemma OriginCloses()
    ensures IsOrigin(ORIGIN) && SchemeAt(ORIGIN, 0) == 7 && ClosesAddress(ORIGIN, 0)
  {
    EllipsisIsPlain();
    HostEndIs(ORIGIN, 7, 8);
  }

  /** 990 letters, then an address already scrubbed, then `after`. */
  lemma PadJoins(after: string)
    requires StartsOver(after)
    ensures Joins(Pad(), ORIGIN, after)
  {
    hide IsOrigin, StartsOver;
    OriginCloses();
    var text := Pad() + ORIGIN + after;
    forall i: nat | i < 990 ensures SchemeAt(text, i) == 0 {
      assert text[i] == Pad()[i] == 'x';
    }
  }

  lemma NoAddressInMore()
    ensures Clean(" and more") && StartsOver(" and more")
  {}

  /** Such a cut: what it adds is taken for a path by a second scrubbing. */
  lemma CutIsNotStable()
    ensures var once := Excerpt(Scrubbed(Pad() + ORIGIN + " and more"), DETAIL_LIMIT);
      Excerpt(Scrubbed(once), DETAIL_LIMIT) != once
  {
    hide Scrubbed, SchemeAt, Joins, Clean, ClosesAddress, IsOrigin, StartsOver, IsSpace;
    var text, cut := Pad() + ORIGIN + " and more", Pad() + ORIGIN;
    NoAddressInMore();
    PadJoins(" and more");
    JoinedIsClean(Pad(), ORIGIN, " and more");
    ScrubbedStays(text);
    EllipsisIsPlain();
    assert text[..1000] == cut && cut[999] == ELLIPSIS;
    OriginCloses();
    ClosesAddressShifts(Pad(), ORIGIN, 0);
    assert EndsWithOrigin(cut);
    CutIsStableExactlyWhen(text, DETAIL_LIMIT);
  }

  lemma ScrubbedNothing()
    ensures Scrubbed([]) == []
  {}
}
