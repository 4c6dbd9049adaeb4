/** The CONNECT reader of scripts/smoke-packaged-claude.ts: a request head (section 9.3.6 of RFC 9110) in chunks. */
module ConnectHandshake {
  import opened Prelude
  import opened StylesheetText

  const LIMIT: nat := 16384
  const CRLF: seq<byte> := [13, 10]
  const BLANK_LINE: seq<byte> := [13, 10, 13, 10]

  // ---------------------------------------------------------------- bytes

  predicate Occurs(bytes: seq<byte>, pattern: seq<byte>, at: nat) {
    at + |pattern| <= |bytes| && bytes[at..at + |pattern|] == pattern
  }

  /** The first occurrence of `pattern` at or after `from`. */
  function IndexOf(bytes: seq<byte>, pattern: seq<byte>, from: nat): (at: Option<nat>)
    requires from <= |bytes|
    ensures at.Some? ==> from <= at.value && Occurs(bytes, pattern, at.value)
    ensures forall k: nat :: from <= k && (at.Some? ==> k < at.value) ==> !Occurs(bytes, pattern, k)
    decreases |bytes| - from
  {
    if Occurs(bytes, pattern, from) then Some(from)
    else if from == |bytes| then None
    else IndexOf(bytes, pattern, from + 1)
  }

  /** Node's "ascii" decoding: the top bit is dropped. */
  function Ascii(bytes: seq<byte>): (text: string)
    ensures |text| == |bytes|
    ensures forall i | 0 <= i < |text| :: text[i] as int < 128 && bytes[i] as int - text[i] as int in {0, 128}
  {
    seq(|bytes|, i requires 0 <= i < |bytes| => (bytes[i] % 128) as char)
  }

  // ---------------------------------------------------------------- the request line

  datatype Target = Target(host: string, digits: string)

  predicate IsDigit(c: char) { '0' <= c <= '9' }

  predicate IsHostChar(c: char) { !IsSpace(c) && c != ':' }

  /** How many of the leading characters are of the kind asked for. */
  function HostLength(line: string): (n: nat)
    ensures n <= |line| && (forall k :: 0 <= k < n ==> IsHostChar(line[k])) && (n < |line| ==> !IsHostChar(line[n]))
  {
    if line == "" || !IsHostChar(line[0]) then 0 else 1 + HostLength(line[1..])
  }

  function DigitLength(line: string): (n: nat)
    ensures n <= |line| && (forall k :: 0 <= k < n ==> IsDigit(line[k])) && (n < |line| ==> !IsDigit(line[n]))
  {
    if line == "" || !IsDigit(line[0]) then 0 else 1 + DigitLength(line[1..])
  }

  const METHOD: string := "CONNECT "
  const VERSIONS: seq<string> := [" HTTP/1.0", " HTTP/1.1"]

  /** The match of the request line, found greedily from the left. */
  function ParseRequestLine(line: string): Option<Target> {
    if METHOD <= line then ParseAuthority(line[|METHOD|..]) else None
  }

  function ParseAuthority(rest: string): Option<Target> {
    var n := HostLength(rest);
    if n == 0 || n == |rest| || rest[n] != ':' then None
    else
      match ParsePort(rest[n + 1..])
      case None => None
      case Some(digits) => Some(Target(rest[..n], digits))
  }

  function ParsePort(port: string): Option<string> {
    var d := DigitLength(port);
    if d > 0 && port[d..] in VERSIONS then Some(port[..d]) else None
  }

  function DigitValue(c: char): nat
    requires IsDigit(c)
  {
    c as int - '0' as int
  }

  /** The number a digit string names. */
  function Value(digits: string): nat
    requires forall k :: 0 <= k < |digits| ==> IsDigit(digits[k])
  {
    if digits == "" then 0 else Value(digits[..|digits| - 1]) * 10 + DigitValue(digits[|digits| - 1])
  }

  // ---------------------------------------------------------------- the host name

  function Lower(s: string): (r: string)
    ensures |r| == |s|
    ensures forall i | 0 <= i < |s| && 'A' <= s[i] <= 'Z' ::
      'a' <= r[i] <= 'z' && r[i] as int - 'a' as int == s[i] as int - 'A' as int
    ensures forall i | 0 <= i < |s| && !('A' <= s[i] <= 'Z') :: r[i] == s[i]
  {
    seq(|s|, i requires 0 <= i < |s| => if 'A' <= s[i] <= 'Z' then (s[i] as int + 32) as char else s[i])
  }

  function WithoutDot(s: string): string {
    if s != "" && s[|s| - 1] == '.' then s[..|s| - 1] else s
  }

  predicate IsNameChar(c: char) { 'a' <= c <= 'z' || IsDigit(c) || c == '.' || c == '-' }

  /** `toAscii` stands for `domainToASCII` of Node. */
  function NormalizeHostname(toAscii: string -> string, candidate: string): (name: Option<string>)
    ensures name.Some? ==> 1 <= |name.value| <= 253 && forall k :: 0 <= k < |name.value| ==> IsNameChar(name.value[k])
  {
    var ascii := toAscii(Lower(WithoutDot(Trim(candidate))));
    if |ascii| == 0 || |ascii| > 253 || (exists k :: 0 <= k < |ascii| && !IsNameChar(ascii[k])) then None
    else Some(ascii)
  }

  // ---------------------------------------------------------------- the handler

  /** The host a request line asks for, if it is let through. */
  function Judge(toAscii: string -> string, line: string): Option<string> {
    var target := ParseRequestLine(line);
    if target.None? || Port(target.value) != Some(443) then None
    else NormalizeHostname(toAscii, target.value.host)
  }

  /** The same for a complete request head, whose first line alone counts. */
  function Verdict(toAscii: string -> string, bytes: seq<byte>): Option<string>
    requires IndexOf(bytes, CRLF, 0).Some?
  {
    Judge(toAscii, Ascii(bytes[..IndexOf(bytes, CRLF, 0).value]))
  }

  function Port(target: Target): Option<nat> {
    if forall k :: 0 <= k < |target.digits| ==> IsDigit(target.digits[k]) then Some(Value(target.digits)) else None
  }

  datatype State =
    | Reading(pending: seq<byte>)
    | Destroyed
    | Tunnel(hostname: string, pending: seq<byte>, boundary: nat)

  function Decide(toAscii: string -> string, pending: seq<byte>): State {
    if |pending| > LIMIT then Destroyed
    else
      match IndexOf(pending, BLANK_LINE, 0)
      case None => Reading(pending)
      case Some(boundary) =>
        BlankLineEndsALine(pending);
        match Verdict(toAscii, pending)
        case None => Destroyed
        case Some(hostname) => Tunnel(hostname, pending, boundary)
  }

  function Feed(toAscii: string -> string, s: State, chunk: seq<byte>): State {
    if s.Reading? then Decide(toAscii, s.pending + chunk) else s
  }

  function Run(toAscii: string -> string, s: State, chunks: seq<seq<byte>>): State
    decreases |chunks|
  {
    if chunks == [] then s else Run(toAscii, Feed(toAscii, s, chunks[0]), chunks[1..])
  }

  lemma BlankLineEndsALine(bytes: seq<byte>)
    ensures IndexOf(bytes, BLANK_LINE, 0).Some? ==>
      IndexOf(bytes, CRLF, 0).Some? && IndexOf(bytes, CRLF, 0).value <= IndexOf(bytes, BLANK_LINE, 0).value
  {
    var blank := IndexOf(bytes, BLANK_LINE, 0);
    if blank.Some? {
      var at := blank.value;
      assert bytes[at..at + 2] == bytes[at..at + 4][..2];
      assert Occurs(bytes, CRLF, at);
    }
  }

  /** One client connection of the observer, up to the moment its tunnel is opened. */
  class Connection {
    const toAscii: string -> string
    var hostnames: set<string>
    var pending: seq<byte>
    var destroyed: bool
    var tunnel: Option<(string, nat)>

    ghost function Now(): State
      reads this
    {
      if destroyed then Destroyed
      else if tunnel.Some? then Tunnel(tunnel.value.0, pending, tunnel.value.1)
      else Reading(pending)
    }

    constructor (toAscii: string -> string)
      ensures this.toAscii == toAscii && Now() == Reading([]) && hostnames == {}
    {
      this.toAscii := toAscii;
      hostnames, pending, destroyed, tunnel := {}, [], false, None;
    }

    method OnHandshake(chunk: seq<byte>)
      requires Now().Reading?
      modifies this
      ensures Now() == Feed(toAscii, old(Now()), chunk)
      ensures hostnames == old(hostnames) + (if Now().Tunnel? then {Now().hostname} else {})
    {
      pending := pending + chunk;
      if |pending| > LIMIT {
        destroyed := true;
        return;
      }
      var boundary := IndexOf(pending, BLANK_LINE, 0);
      if boundary.None? { return; }
      BlankLineEndsALine(pending);
      var firstLineEnd := IndexOf(pending, CRLF, 0).value;
      var hostname := AcceptLine(Ascii(pending[..firstLineEnd]));
      if hostname.None? {
        destroyed := true;
        return;
      }
      hostnames := hostnames + {hostname.value};
      tunnel := Some((hostname.value, boundary.value));
    }

    method AcceptLine(line: string) returns (hostname: Option<string>)
      ensures hostname == Judge(toAscii, line)
    {
      var target := ParseRequestLine(line);
      if target.None? || Port(target.value) != Some(443) { return None; }
      hostname := NormalizeHostname(toAscii, target.value.host);
    }

    /** When the upstream answers: what was read past the head goes there first. */
    method OnUpstreamConnect() returns (remainder: seq<byte>)
      requires Now().Tunnel? && tunnel.value.1 + 4 <= |pending|
      modifies this`pending
      ensures old(pending) == old(pending)[..old(Now()).boundary + 4] + remainder && pending == []
    {
      remainder := pending[tunnel.value.1 + 4..];
      pending := [];
    }
  }

  // ---------------------------------------------------------------- independence of chunks

  function Concat(chunks: seq<seq<byte>>): seq<byte> {
    if chunks == [] then [] else chunks[0] + Concat(chunks[1..])
  }

  predicate HasHead(bytes: seq<byte>) {
    IndexOf(bytes, BLANK_LINE, 0).Some?
  }

  /** What the buffer holds when the head is complete: the chunks up to the one that ends it, or all of them. */
  function Held(pending: seq<byte>, chunks: seq<seq<byte>>): seq<byte>
    decreases |chunks|
  {
    if HasHead(pending) || chunks == [] then pending else Held(pending + chunks[0], chunks[1..])
  }

  lemma {:induction false} HeldIsAPrefix(pending: seq<byte>, chunks: seq<seq<byte>>)
    ensures pending <= Held(pending, chunks) <= pending + Concat(chunks)
    ensures !HasHead(Held(pending, chunks)) ==> Held(pending, chunks) == pending + Concat(chunks)
    decreases |chunks|
  {
    if !HasHead(pending) && chunks != [] {
      HeldIsAPrefix(pending + chunks[0], chunks[1..]);
      assert pending + chunks[0] + Concat(chunks[1..]) == pending + Concat(chunks);
    }
  }

  lemma {:induction false} RunDecidesOnHeld(toAscii: string -> string, pending: seq<byte>, chunks: seq<seq<byte>>)
    requires !HasHead(pending) && |pending| <= LIMIT
    ensures Run(toAscii, Reading(pending), chunks) == Decide(toAscii, Held(pending, chunks))
    decreases |chunks|
  {
    if chunks != [] {
      var next := pending + chunks[0];
      var s := Feed(toAscii, Reading(pending), chunks[0]);
      if |next| > LIMIT {
        HeldIsAPrefix(next, chunks[1..]);
        RunStays(toAscii, s, chunks[1..]);
      } else if HasHead(next) {
        RunStays(toAscii, s, chunks[1..]);
      } else {
        RunDecidesOnHeld(toAscii, next, chunks[1..]);
      }
    }
  }

  lemma {:induction false} RunStays(toAscii: string -> string, s: State, chunks: seq<seq<byte>>)
    requires !s.Reading?
    ensures Run(toAscii, s, chunks) == s
    decreases |chunks|
  {
    if chunks != [] { RunStays(toAscii, s, chunks[1..]); }
  }

  lemma OccursInPrefix(a: seq<byte>, b: seq<byte>, pattern: seq<byte>, at: nat)
    requires a <= b && at + |pattern| <= |a|
    ensures Occurs(a, pattern, at) == Occurs(b, pattern, at)
  {
  }

  lemma IndexInPrefix(a: seq<byte>, b: seq<byte>, pattern: seq<byte>)
    requires a <= b && IndexOf(a, pattern, 0).Some?
    ensures IndexOf(b, pattern, 0) == IndexOf(a, pattern, 0)
  {
    var at := IndexOf(a, pattern, 0).value;
    OccursInPrefix(a, b, pattern, at);
    forall k: nat | k < at
      ensures !Occurs(b, pattern, k)
    {
      OccursInPrefix(a, b, pattern, k);
    }
  }

  /** A request head is judged by itself: what follows the blank line changes nothing. */
  lemma VerdictOfPrefix(toAscii: string -> string, a: seq<byte>, b: seq<byte>)
    requires a <= b && HasHead(a)
    ensures IndexOf(b, BLANK_LINE, 0) == IndexOf(a, BLANK_LINE, 0)
    ensures IndexOf(a, CRLF, 0).Some? && IndexOf(b, CRLF, 0).Some?
    ensures Verdict(toAscii, b) == Verdict(toAscii, a)
  {
    BlankLineEndsALine(a);
    IndexInPrefix(a, b, BLANK_LINE);
    IndexInPrefix(a, b, CRLF);
    var line := IndexOf(a, CRLF, 0).value;
    assert a[..line] == b[..line];
  }

  /**
   The outcome for every way of cutting a stream into chunks. Within the limit when
   the head is complete, it is the verdict on the whole stream; past it, a drop.
   What was read is the head and the remainder, with nothing lost between.
   */
  lemma OutcomeIsExact(toAscii: string -> string, chunks: seq<seq<byte>>)
    ensures var bytes := Concat(chunks);
            var held := Held([], chunks);
            var s := Run(toAscii, Reading([]), chunks);
            && (|held| > 16384 ==> s == Destroyed)
            && (|held| <= 16384 && !HasHead(bytes) ==> s == Reading(bytes))
            && (|held| <= 16384 && HasHead(bytes) ==>
                  && IndexOf(bytes, CRLF, 0).Some?
                  && var boundary := IndexOf(bytes, BLANK_LINE, 0).value;
                  && boundary + 4 <= |held| && held <= bytes
                  && match Verdict(toAscii, bytes)
                     case None => s == Destroyed
                     case Some(hostname) => s == Tunnel(hostname, held, boundary))
  {
    var bytes, held := Concat(chunks), Held([], chunks);
    HeldIsAPrefix([], chunks);
    assert [] + bytes == bytes;
    RunDecidesOnHeld(toAscii, [], chunks);
    if HasHead(held) {
      VerdictOfPrefix(toAscii, held, bytes);
    }
  }

  /** Two cuttings of one stream, both within the limit at the blank line, end alike. */
  lemma ChunkingDoesNotMatter(toAscii: string -> string, chunks: seq<seq<byte>>, others: seq<seq<byte>>)
    requires Concat(chunks) == Concat(others)
    requires |Held([], chunks)| <= LIMIT && |Held([], others)| <= LIMIT
    ensures var s := Run(toAscii, Reading([]), chunks);
            var t := Run(toAscii, Reading([]), others);
            && (s.Destroyed? <==> t.Destroyed?) && (s.Tunnel? <==> t.Tunnel?)
            && (s.Tunnel? ==> s.hostname == t.hostname && s.boundary == t.boundary)
            && (s.Reading? ==> s == t)
  {
    OutcomeIsExact(toAscii, chunks);
    OutcomeIsExact(toAscii, others);
  }

  /** Cut off behind the first chunk that completes a head, or not at all. */
  ghost predicate IsCut(chunks: seq<seq<byte>>, pending: seq<byte>, k: nat) {
    && k <= |chunks| && (k < |chunks| ==> HasHead(pending + Concat(chunks[..k])))
    && forall j: nat | j < k :: !HasHead(pending + Concat(chunks[..j]))
  }

  lemma ConcatFirst(chunks: seq<seq<byte>>, k: nat)
    requires 0 < k <= |chunks|
    ensures Concat(chunks[..k]) == chunks[0] + Concat(chunks[1..][..k - 1])
  {
    assert chunks[..k][1..] == chunks[1..][..k - 1];
  }

  /** What is held is all that came up to there. */
  lemma {:induction false} HeldExactly(pending: seq<byte>, chunks: seq<seq<byte>>) returns (k: nat)
    ensures IsCut(chunks, pending, k) && Held(pending, chunks) == pending + Concat(chunks[..k])
    decreases |chunks|
  {
    hide HasHead;
    assert pending + Concat(chunks[..0]) == pending;
    if HasHead(pending) || chunks == [] {
      k := 0;
    } else {
      var next := pending + chunks[0];
      var i := HeldExactly(next, chunks[1..]);
      k := i + 1;
      forall j: nat | 0 < j <= k
        ensures pending + Concat(chunks[..j]) == next + Concat(chunks[1..][..j - 1])
      {
        ConcatFirst(chunks, j);
      }
    }
  }

  lemma HeldOfTwo(head: seq<byte>, body: seq<byte>)
    requires HasHead(head)
    ensures Held([], [head, body]) == head && Held([], [head + body]) == head + body
    ensures Concat([head, body]) == Concat([head + body])
  {
    assert [] + head == head && [] + (head + body) == head + body;
    assert [head, body][1..] == [body] && [body][1..] == [] && [head + body][1..] == [];
    assert body + [] == body && head + body + [] == head + body;
  }

  /** Past the limit the cutting decides: an accepted head with too much after it passes alone, not in one chunk. */
  lemma LimitDependsOnChunks(toAscii: string -> string, head: seq<byte>, body: seq<byte>)
    requires |head| <= LIMIT < |head| + |body| && HasHead(head)
    requires IndexOf(head, CRLF, 0).Some? && Verdict(toAscii, head).Some?
    ensures Concat([head, body]) == Concat([head + body])
    ensures Run(toAscii, Reading([]), [head, body]).Tunnel?
    ensures Run(toAscii, Reading([]), [head + body]) == Destroyed
  {
    hide Run, Verdict;
    HeldOfTwo(head, body);
    RunDecidesOnHeld(toAscii, [], [head, body]);
    RunDecidesOnHeld(toAscii, [], [head + body]);
  }

  /** How a stream was met: undecided, dropped, or let through to a host. */
  function Met(s: State): Option<Option<string>> {
    match s
    case Reading(_) => None
    case Destroyed => Some(None)
    case Tunnel(hostname, _, _) => Some(Some(hostname))
  }

  /** The chunks are a cutting of the stream, and `end` is how it is met. */
  predicate Ends(toAscii: string -> string, bytes: seq<byte>, chunks: seq<seq<byte>>, end: Option<Option<string>>) {
    Concat(chunks) == bytes && Met(Run(toAscii, Reading([]), chunks)) == end
  }

  ghost predicate EndAlike(toAscii: string -> string, bytes: seq<byte>) {
    forall a, b, x, y | Ends(toAscii, bytes, a, x) && Ends(toAscii, bytes, b, y) :: x == y
  }

  /**
   For a stream with a head, the exact condition: all its cuttings end alike when the
   whole stream is within the limit, when the head alone is beyond it, or when the
   head is refused, and otherwise not.
   */
  lemma CuttingsEndAlikeExactly(toAscii: string -> string, bytes: seq<byte>)
    requires HasHead(bytes)
    ensures IndexOf(bytes, CRLF, 0).Some?
    ensures EndAlike(toAscii, bytes) <==>
      |bytes| <= 16384 || IndexOf(bytes, BLANK_LINE, 0).value + 4 > 16384 || Verdict(toAscii, bytes).None?
  {
    BlankLineEndsALine(bytes);
    if |bytes| <= LIMIT || IndexOf(bytes, BLANK_LINE, 0).value + 4 > LIMIT || Verdict(toAscii, bytes).None? {
      AlikeWithin(toAscii, bytes);
    } else {
      UnlikeBeyond(toAscii, bytes);
    }
  }

  lemma AlikeWithin(toAscii: string -> string, bytes: seq<byte>)
    requires HasHead(bytes) && IndexOf(bytes, CRLF, 0).Some?
    requires |bytes| <= LIMIT || IndexOf(bytes, BLANK_LINE, 0).value + 4 > LIMIT || Verdict(toAscii, bytes).None?
    ensures EndAlike(toAscii, bytes)
  {
    forall a, b, x, y | Ends(toAscii, bytes, a, x) && Ends(toAscii, bytes, b, y)
      ensures x == y
    {
      MetWithin(toAscii, bytes, a);
      MetWithin(toAscii, bytes, b);
    }
  }

  lemma UnlikeBeyond(toAscii: string -> string, bytes: seq<byte>)
    requires HasHead(bytes) && IndexOf(bytes, CRLF, 0).Some? && Verdict(toAscii, bytes).Some?
    requires IndexOf(bytes, BLANK_LINE, 0).value + 4 <= LIMIT < |bytes|
    ensures !EndAlike(toAscii, bytes)
  {
    var head, body := HeadAlone(toAscii, bytes);
    HeadThenBody(toAscii, head, body, bytes);
  }

  lemma HeadThenBody(toAscii: string -> string, head: seq<byte>, body: seq<byte>, bytes: seq<byte>)
    requires bytes == head + body
    requires |head| <= LIMIT < |head| + |body| && HasHead(head)
    requires IndexOf(head, CRLF, 0).Some? && Verdict(toAscii, head).Some?
    ensures !EndAlike(toAscii, bytes)
  {
    var a, b, x, y := TwoEndings(toAscii, head, body);
    assert Ends(toAscii, bytes, a, x) && Ends(toAscii, bytes, b, y);
  }

  /** A stream is its head, judged alike, and what follows. */
  lemma HeadAlone(toAscii: string -> string, bytes: seq<byte>) returns (head: seq<byte>, body: seq<byte>)
    requires HasHead(bytes) && IndexOf(bytes, CRLF, 0).Some?
    ensures bytes == head + body && |head| == IndexOf(bytes, BLANK_LINE, 0).value + 4 && HasHead(head)
    ensures IndexOf(head, CRLF, 0).Some? && Verdict(toAscii, head) == Verdict(toAscii, bytes)
  {
    hide Verdict, Occurs;
    head, body := HeadAndBody(bytes);
    VerdictOfPrefix(toAscii, head, bytes);
  }

  lemma HeadAndBody(bytes: seq<byte>) returns (head: seq<byte>, body: seq<byte>)
    requires HasHead(bytes)
    ensures bytes == head + body && |head| == IndexOf(bytes, BLANK_LINE, 0).value + 4 && HasHead(head) && head <= bytes
  {
    var length := IndexOf(bytes, BLANK_LINE, 0).value + 4;
    HeadIsComplete(bytes, length);
    head, body := bytes[..length], bytes[length..];
  }

  /** In two chunks the head is let through, in one with the body it is dropped. */
  lemma TwoEndings(toAscii: string -> string, head: seq<byte>, body: seq<byte>)
    returns (a: seq<seq<byte>>, b: seq<seq<byte>>, x: Option<Option<string>>, y: Option<Option<string>>)
    requires |head| <= LIMIT < |head| + |body| && HasHead(head)
    requires IndexOf(head, CRLF, 0).Some? && Verdict(toAscii, head).Some?
    ensures Ends(toAscii, head + body, a, x) && Ends(toAscii, head + body, b, y) && x != y
  {
    a, b := [head, body], [head + body];
    x, y := Met(Run(toAscii, Reading([]), [head, body])), Met(Run(toAscii, Reading([]), [head + body]));
    LimitDependsOnChunks(toAscii, head, body);
    OneChunk(head + body);
  }

  lemma OneChunk(bytes: seq<byte>)
    ensures Concat([bytes]) == bytes
  {
    assert [bytes][1..] == [];
  }

  lemma HeadIsComplete(bytes: seq<byte>, length: nat)
    requires HasHead(bytes) && length == IndexOf(bytes, BLANK_LINE, 0).value + 4
    ensures length <= |bytes| && HasHead(bytes[..length])
  {
    var at := IndexOf(bytes, BLANK_LINE, 0).value;
    OccursInPrefix(bytes[..length], bytes, BLANK_LINE, at);
  }

  /** Where the condition holds, what a cutting meets depends on the stream alone. */
  lemma MetWithin(toAscii: string -> string, bytes: seq<byte>, chunks: seq<seq<byte>>)
    requires HasHead(bytes) && Concat(chunks) == bytes && IndexOf(bytes, CRLF, 0).Some?
    requires |bytes| <= LIMIT || IndexOf(bytes, BLANK_LINE, 0).value + 4 > LIMIT || Verdict(toAscii, bytes).None?
    ensures Met(Run(toAscii, Reading([]), chunks)) ==
      if IndexOf(bytes, BLANK_LINE, 0).value + 4 > LIMIT then Some(None) else Some(Verdict(toAscii, bytes))
  {
    HeldHasHead(bytes, chunks);
    OutcomeIsExact(toAscii, chunks);
  }

  lemma HeldHasHead(bytes: seq<byte>, chunks: seq<seq<byte>>)
    requires HasHead(bytes) && Concat(chunks) == bytes
    ensures Held([], chunks) <= bytes && IndexOf(bytes, BLANK_LINE, 0).value + 4 <= |Held([], chunks)|
  {
    var held := Held([], chunks);
    HeldIsAPrefix([], chunks);
    assert [] + bytes == bytes;
    assert HasHead(held);
    IndexInPrefix(held, bytes, BLANK_LINE);
  }

  // ---------------------------------------------------------------- the request line as a grammar

  predicate AllHost(s: string) {
    s != "" && forall k :: 0 <= k < |s| ==> IsHostChar(s[k])
  }

  predicate AllDigits(s: string) {
    s != "" && forall k :: 0 <= k < |s| ==> IsDigit(s[k])
  }

  /** The line that asks for a target. */
  function RequestLine(target: Target, version: string): string {
    METHOD + (target.host + (":" + (target.digits + version)))
  }

  predicate WellFormed(target: Target) {
    AllHost(target.host) && AllDigits(target.digits)
  }

  lemma {:induction false} HostLengthStops(host: string, rest: string)
    requires (forall k :: 0 <= k < |host| ==> IsHostChar(host[k])) && rest != "" && !IsHostChar(rest[0])
    ensures HostLength(host + rest) == |host|
  {
    if host == "" {
      assert host + rest == rest;
    } else {
      assert (host + rest)[1..] == host[1..] + rest;
      HostLengthStops(host[1..], rest);
    }
  }

  lemma {:induction false} DigitLengthStops(digits: string, rest: string)
    requires (forall k :: 0 <= k < |digits| ==> IsDigit(digits[k])) && rest != "" && !IsDigit(rest[0])
    ensures DigitLength(digits + rest) == |digits|
  {
    if digits == "" {
      assert digits + rest == rest;
    } else {
      assert (digits + rest)[1..] == digits[1..] + rest;
      DigitLengthStops(digits[1..], rest);
    }
  }

  lemma PortIsExact(port: string, digits: string)
    ensures ParsePort(port) == Some(digits) <==>
      AllDigits(digits) && exists version :: version in VERSIONS && port == digits + version
  {
    if ParsePort(port) == Some(digits) {
      assert port == digits + port[|digits|..];
    }
    forall version | version in VERSIONS && port == digits + version && AllDigits(digits)
      ensures ParsePort(port) == Some(digits)
    {
      assert version[0] == ' ';
      DigitLengthStops(digits, version);
      assert port[|digits|..] == version;
    }
  }

  lemma ColonBetween(host: string, port: string)
    ensures var s := host + (":" + port);
      |s| == |host| + 1 + |port| && s[..|host|] == host && s[|host|] == ':' && s[|host| + 1..] == port
  {
  }

  lemma CutAtColon(s: string, n: nat)
    requires n < |s| && s[n] == ':'
    ensures s == s[..n] + (":" + s[n + 1..])
  {
    assert s[n..] == ":" + s[n + 1..];
    assert s == s[..n] + s[n..];
  }

  lemma AuthorityIsParsed(target: Target, port: string)
    requires AllHost(target.host) && ParsePort(port) == Some(target.digits)
    ensures ParseAuthority(target.host + (":" + port)) == Some(target)
  {
    hide ParsePort;
    HostLengthStops(target.host, ":" + port);
    ColonBetween(target.host, port);
  }

  lemma ParsedAuthority(rest: string, target: Target)
    requires ParseAuthority(rest) == Some(target)
    ensures var port := rest[HostLength(rest) + 1..];
            AllHost(target.host) && ParsePort(port) == Some(target.digits) && rest == target.host + (":" + port)
  {
    hide ParsePort, IsHostChar, HostLength;
    CutAtColon(rest, HostLength(rest));
  }

  lemma AuthorityIsExact(rest: string, target: Target)
    ensures ParseAuthority(rest) == Some(target) <==>
      AllHost(target.host) && exists port :: rest == target.host + (":" + port) && ParsePort(port) == Some(target.digits)
  {
    if ParseAuthority(rest) == Some(target) {
      ParsedAuthority(rest, target);
    }
    forall port | rest == target.host + (":" + port) && ParsePort(port) == Some(target.digits) && AllHost(target.host)
      ensures ParseAuthority(rest) == Some(target)
    {
      AuthorityIsParsed(target, port);
    }
  }

  /** A line is matched exactly when it has the form, and then with the one host and port it has. */
  lemma RequestLineIsExact(line: string, target: Target)
    ensures ParseRequestLine(line) == Some(target) <==>
      WellFormed(target) && exists version :: version in VERSIONS && line == RequestLine(target, version)
  {
    if ParseRequestLine(line) == Some(target) {
      var rest := line[|METHOD|..];
      assert line == METHOD + rest;
      AuthorityIsExact(rest, target);
      var port :| rest == target.host + (":" + port) && ParsePort(port) == Some(target.digits);
      PortIsExact(port, target.digits);
      var version :| version in VERSIONS && port == target.digits + version;
      assert line == RequestLine(target, version);
    }
    forall version | version in VERSIONS && line == RequestLine(target, version) && WellFormed(target)
      ensures ParseRequestLine(line) == Some(target)
    {
      FormIsParsed(target, version);
    }
  }

  lemma FormIsParsed(target: Target, version: string)
    requires WellFormed(target) && version in VERSIONS
    ensures ParseRequestLine(RequestLine(target, version)) == Some(target)
  {
    var port := target.digits + version;
    var rest := target.host + (":" + port);
    PortIsExact(port, target.digits);
    AuthorityIsExact(rest, target);
    assert (METHOD + rest)[|METHOD|..] == rest;
  }

  lemma LastThreeDigits(digits: string)
    requires AllDigits(digits) && |digits| >= 3
    ensures var n := |digits|;
            Value(digits) == Value(digits[..n - 3]) * 1000 + DigitValue(digits[n - 3]) * 100
              + DigitValue(digits[n - 2]) * 10 + DigitValue(digits[n - 1])
  {
    var n := |digits|;
    var a, b, c := digits[..n - 1], digits[..n - 2], digits[..n - 3];
    assert a[..n - 2] == b && b[..n - 3] == c;
    assert Value(b) == Value(c) * 10 + DigitValue(digits[n - 3]);
    assert Value(a) == Value(b) * 10 + DigitValue(digits[n - 2]);
  }

  lemma TwoDigits(digits: string)
    requires AllDigits(digits) && |digits| <= 2
    ensures Value(digits) < 100
  {
    if |digits| == 2 {
      assert digits[..1][..0] == "";
      assert Value(digits[..1]) == DigitValue(digits[0]);
    } else {
      assert digits[..0] == "";
    }
  }

  /** The port is 443 exactly when its digits are zeros, if any, and then 4, 4 and 3. */
  lemma PortIs443(digits: string)
    requires AllDigits(digits)
    ensures Value(digits) == 443 <==>
      && |digits| >= 3 && (forall k :: 0 <= k < |digits| - 3 ==> digits[k] == '0')
      && digits[|digits| - 3] == '4' && digits[|digits| - 2] == '4' && digits[|digits| - 1] == '3'
  {
    var n := |digits|;
    if n >= 3 {
      LastThreeDigits(digits);
      ZeroIsZeros(digits[..n - 3]);
      assert forall k :: 0 <= k < n - 3 ==> digits[..n - 3][k] == digits[k];
    } else {
      TwoDigits(digits);
    }
  }

  /** A request line is let through, and for that name, exactly when it asks for port 443 of a host with a valid name. */
  lemma JudgementIsExact(toAscii: string -> string, line: string, name: string)
    ensures Judge(toAscii, line) == Some(name) <==>
      exists target :: AsksFor(line, target) && NormalizeHostname(toAscii, target.host) == Some(name)
  {
    if Judge(toAscii, line) == Some(name) {
      var target := ParseRequestLine(line).value;
      RequestLineIsExact(line, target);
      assert AsksFor(line, target);
    }
    forall target | AsksFor(line, target) && NormalizeHostname(toAscii, target.host) == Some(name)
      ensures Judge(toAscii, line) == Some(name)
    {
      RequestLineIsExact(line, target);
    }
  }

  ghost predicate AsksFor(line: string, target: Target) {
    && WellFormed(target) && Value(target.digits) == 443
    && exists version :: version in VERSIONS && line == RequestLine(target, version)
  }

  lemma {:induction false} ZeroIsZeros(digits: string)
    requires forall k :: 0 <= k < |digits| ==> IsDigit(digits[k])
    ensures Value(digits) == 0 <==> forall k :: 0 <= k < |digits| ==> digits[k] == '0'
  {
    if digits != "" {
      var n := |digits| - 1;
      ZeroIsZeros(digits[..n]);
      assert forall k :: 0 <= k < n ==> digits[..n][k] == digits[k];
    }
  }

  // ---------------------------------------------------------------- host names

  /** A name with and without its closing dot is one name, in either case of its letters. */
  lemma NameIsNormal(toAscii: string -> string, name: string, other: string)
    requires AllHost(name) && AllHost(other) && name[|name| - 1] != '.' && Lower(name) == Lower(other)
    ensures NormalizeHostname(toAscii, name + ".") == NormalizeHostname(toAscii, name)
    ensures NormalizeHostname(toAscii, other) == NormalizeHostname(toAscii, name)
  {
    assert |Lower(name)| == |name| && |Lower(other)| == |other|;
    assert Lower(name)[|name| - 1] == Lower(other)[|name| - 1];
    TrimKeepsHost(name);
    TrimKeepsHost(other);
    TrimKeepsHost(name + ".");
    assert (name + ".")[..|name|] == name;
  }

  lemma TrimKeepsHost(s: string)
    requires AllHost(s)
    ensures Trim(s) == s
  {
  }

  predicate IsName(s: string) {
    1 <= |s| <= 253 && forall k :: 0 <= k < |s| ==> IsNameChar(s[k])
  }

  /** Of a padded name, with or without one closing dot, the lower-case name is what counts: converted, or refused. */
  lemma NormalisedName(toAscii: string -> string, lead: string, name: string, dot: bool, rest: string)
    requires Blank(lead) && Blank(rest) && Trimmed(if dot then name + "." else name)
    requires !dot ==> name == "" || name[|name| - 1] != '.'
    ensures var ascii := toAscii(Lower(name));
      NormalizeHostname(toAscii, lead + (if dot then name + "." else name) + rest)
      == if IsName(ascii) then Some(ascii) else None
  {
    var written := if dot then name + "." else name;
    TrimUndoesPadding(lead, written, rest);
    assert WithoutDot(written) == name by { assert (name + ".")[..|name|] == name; }
  }

  // ---------------------------------------------------------------- a head that is let through

  /** The bytes of a text of 7-bit characters. */
  function Bytes(s: string): seq<byte>
    requires forall k :: 0 <= k < |s| ==> s[k] < 128 as char
  {
    seq(|s|, i requires 0 <= i < |s| => s[i] as int)
  }

  lemma OccursAtFirst(bytes: seq<byte>, pattern: seq<byte>, at: nat)
    requires pattern != []
    ensures Occurs(bytes, pattern, at) ==> bytes[at] == pattern[0]
  {
    if Occurs(bytes, pattern, at) {
      assert bytes[at..at + |pattern|][0] == pattern[0];
    }
  }

  lemma LineThenBlank(line: string)
    requires forall k :: 0 <= k < |line| ==> line[k] < 128 as char && line[k] != '\r'
    ensures var head := Bytes(line) + BLANK_LINE;
      && IndexOf(head, CRLF, 0) == Some(|line|) && IndexOf(head, BLANK_LINE, 0) == Some(|line|)
      && Ascii(head[..|line|]) == line
  {
    hide IndexOf;
    var head, n := Bytes(line) + BLANK_LINE, |line|;
    assert head[n..n + 4] == BLANK_LINE && head[n..n + 2] == CRLF;
    assert Occurs(head, BLANK_LINE, n) && Occurs(head, CRLF, n);
    forall k: nat | k < n
      ensures !Occurs(head, CRLF, k) && !Occurs(head, BLANK_LINE, k)
    {
      assert head[k] == line[k] as int;
      OccursAtFirst(head, CRLF, k);
      OccursAtFirst(head, BLANK_LINE, k);
    }
    assert head[..n] == Bytes(line);
    assert Ascii(Bytes(line)) == line;
  }

  /** Every request line that asks for port 443 of a valid host makes, with the blank line, a head that is let through. */
  lemma HeadOfRequestLine(toAscii: string -> string, line: string, target: Target)
    requires AsksFor(line, target) && NormalizeHostname(toAscii, target.host).Some?
    requires forall k :: 0 <= k < |line| ==> line[k] < 128 as char && line[k] != '\r'
    ensures var head := Bytes(line) + BLANK_LINE;
      HasHead(head) && IndexOf(head, CRLF, 0).Some?
      && Verdict(toAscii, head) == NormalizeHostname(toAscii, target.host)
  {
    LineThenBlank(line);
    JudgementIsExact(toAscii, line, NormalizeHostname(toAscii, target.host).value);
  }

  /** The first line of a head, its bytes read without their top bits. */
  ghost predicate IsFirstLine(bytes: seq<byte>, line: string) {
    && Occurs(bytes, CRLF, |line|) && (forall k: nat | k < |line| :: !Occurs(bytes, CRLF, k))
    && forall k | 0 <= k < |line| :: line[k] as int == bytes[k] as int || line[k] as int == bytes[k] as int - 128
  }

  /** Whatever the bytes: a head is let through exactly when its first line asks for port 443 of a valid host. */
  lemma VerdictIsExact(toAscii: string -> string, bytes: seq<byte>, line: string, name: string)
    requires IsFirstLine(bytes, line) && forall k | 0 <= k < |line| :: line[k] as int < 128
    ensures IndexOf(bytes, CRLF, 0).Some?
    ensures Verdict(toAscii, bytes) == Some(name) <==>
      exists target :: AsksFor(line, target) && NormalizeHostname(toAscii, target.host) == Some(name)
  {
    hide Judge, AsksFor, NormalizeHostname;
    assert IndexOf(bytes, CRLF, 0) == Some(|line|);
    assert Ascii(bytes[..|line|]) == line;
    JudgementIsExact(toAscii, line, name);
  }

  const EXAMPLE: string := "CONNECT a:443 HTTP/1.1"

  lemma ExampleAsks()
    ensures AsksFor(EXAMPLE, Target("a", "443"))
  {
    var target := Target("a", "443");
    assert EXAMPLE == METHOD + ("a" + (":" + ("443" + " HTTP/1.1")));
    assert EXAMPLE == RequestLine(target, VERSIONS[1]);
    PortIs443("443");
  }

  lemma ExampleName()
    ensures NormalizeHostname(s => s, "a") == Some("a")
  {
    hide Trim, WithoutDot;
    NormalisedName(s => s, "", "a", false, "");
    assert "" + "a" + "" == "a" && Lower("a") == "a";
  }

  lemma ExampleIsAscii()
    ensures |EXAMPLE| == 22 && forall k :: 0 <= k < |EXAMPLE| ==> EXAMPLE[k] < 128 as char && EXAMPLE[k] != '\r'
  {
  }

  /** One such head, short of the limit, so that what is said of accepted heads is said of some. */
  lemma ExampleIsLetThrough()
    ensures forall k :: 0 <= k < |EXAMPLE| ==> EXAMPLE[k] < 128 as char
    ensures var head := Bytes(EXAMPLE) + BLANK_LINE;
      |head| <= LIMIT && HasHead(head) && IndexOf(head, CRLF, 0).Some? && Verdict(s => s, head) == Some("a")
  {
    hide AsksFor, NormalizeHostname, Verdict, HasHead;
    ExampleIsAscii();
    ExampleAsks();
    ExampleName();
    HeadOfRequestLine(s => s, EXAMPLE, Target("a", "443"));
  }
}
