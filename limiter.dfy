/** The client-address rule the rate limiter keys its counters on
    (backend/app/init/limiter.py, `get_real_ip`). A request is reduced to the two
    headers it may carry and the peer address of its connection. */
module Limiter {
  import opened Base
  import opened Text

  const LoopbackAddress: string := "127.0.0.1"

  /** A header lookup that Python treats as true: present and non-empty. */
  predicate Given(h: Option<string>)
  {
    h.Some? && h.value != ""
  }

  /** X-Forwarded-For up to its first ',', untrimmed, when that header is given;
      else X-Real-IP verbatim when given; else the peer host, or the loopback
      address when the request has no client. */
  function RealIp(forwardedFor: Option<string>, realIp: Option<string>, clientHost: Option<string>): (ip: string)
    ensures Given(forwardedFor) ==>
      && ',' !in ip
      && StartsWith(forwardedFor.value, ip)
      && (|ip| == |forwardedFor.value| || forwardedFor.value[|ip|] == ',')
    ensures !Given(forwardedFor) && Given(realIp) ==> ip == realIp.value
    ensures !Given(forwardedFor) && !Given(realIp) ==>
      ip == if clientHost.Some? then clientHost.value else LoopbackAddress
  {
    if Given(forwardedFor) then
      var pieces := Split(forwardedFor.value, ',');
      FirstPieceIsPrefix(forwardedFor.value, ',');
      pieces[0]
    else if Given(realIp) then realIp.value
    else if clientHost.Some? then clientHost.value
    else LoopbackAddress
  }

  /** The first piece of a split is the input up to the first separator. */
  lemma {:induction false} FirstPieceIsPrefix(s: string, c: char)
    ensures var first := Split(s, c)[0];
      StartsWith(s, first) && (|first| == |s| || s[|first|] == c)
  {
    if s != [] && s[0] != c {
      FirstPieceIsPrefix(s[1..], c);
    }
  }

  /** The forwarded chain "client, proxy1, proxy2" yields its first hop,
      whatever the other headers say. */
  lemma FirstHopWins(hop: string, rest: string, realIp: Option<string>, clientHost: Option<string>)
    requires ',' !in hop
    ensures RealIp(Some(hop + "," + rest), realIp, clientHost) == hop
  {
    SplitAtFirst(hop, rest, ',');
  }

  /** An empty header counts as absent: selection falls through to the next source. */
  lemma EmptyHeaderIsAbsent(realIp: Option<string>, clientHost: Option<string>)
    ensures RealIp(Some(""), realIp, clientHost) == RealIp(None, realIp, clientHost)
    ensures RealIp(None, Some(""), clientHost) == RealIp(None, None, clientHost)
  {
  }
}
