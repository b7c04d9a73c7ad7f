/** Which sessions a client offers for resumption: btls/src/ssl/connector.rs. */
module ClientSessions {
  import opened Basics

  /** SSL_VERIFY_PEER, the lowest bit of a verify mode. */
  const VERIFY_PEER: nat := 1

  /** What a connection records about its peer for the sessions issued on it. */
  datatype SessionPeer = SessionPeer(domain: string, sni: bool, verifyHostname: bool)

  datatype ClientSession = ClientSession(
    idContext: string, peer: SessionPeer, verifyPeer: bool, notAfter: Option<int>, issuer: Option<nat>)

  /**
    A connection: what its context and configuration say, the certificates the peer presented (their
    expiry where it has one), and what `IntoSsl` made of it.
   */
  datatype Ssl = Ssl(
    verifyMode: int, idContext: Option<string>, issuer: Option<nat>, chain: Option<seq<Option<int>>>,
    hostname: Option<string>, verifiedName: Option<string>, peer: Option<SessionPeer>, offered: Option<ClientSession>)

  /** Whether a connection verifies the peer certificate; a negative mode is an unavailable one. */
  predicate VerifiesPeer(mode: int) { mode >= 0 && mode % (2 * VERIFY_PEER) >= VERIFY_PEER }

  function LowerAscii(c: char): char {
    if 'A' <= c <= 'Z' then (c as int + 32) as char else c
  }

  predicate EqIgnoreAsciiCase(a: string, b: string) {
    |a| == |b| && forall k :: 0 <= k < |a| ==> LowerAscii(a[k]) == LowerAscii(b[k])
  }

  /** The earliest expiry among certificates, of those that have one. */
  function EarliestNotAfter(chain: seq<Option<int>>): (earliest: Option<int>)
    ensures earliest.Some? ==>
              earliest in chain && forall k :: 0 <= k < |chain| && chain[k].Some? ==> earliest.value <= chain[k].value
    ensures earliest.None? ==> forall k :: 0 <= k < |chain| ==> chain[k].None?
  {
    if chain == [] then None else
      var rest := EarliestNotAfter(chain[1..]);
      assert forall k :: 0 < k < |chain| ==> chain[k] == chain[1..][k - 1];
      if chain[0].None? then rest
      else if rest.None? || chain[0].value <= rest.value then chain[0]
      else rest
  }

  function ChainNotAfter(chain: Option<seq<Option<int>>>): Option<int> {
    if chain.None? then None else EarliestNotAfter(chain.value)
  }

  /** The session a connection with a recorded peer reports to the client session callback. */
  function NewSession(ssl: Ssl): ClientSession
    requires ssl.peer.Some?
  {
    ClientSession(if ssl.idContext.Some? then ssl.idContext.value else [], ssl.peer.value, VerifiesPeer(ssl.verifyMode),
                  ChainNotAfter(ssl.chain), ssl.issuer)
  }

  /** Whether a certificate of the session's chain has expired; an unknown time or expiry is not. */
  predicate ChainExpired(session: ClientSession, now: Option<int>) {
    session.notAfter.Some? && now.Some? && now.value >= session.notAfter.value
  }

  /** Whether a connection with these settings may offer the session. */
  predicate Resumes(session: ClientSession, ssl: Ssl, domain: string, sni: bool, verifyHostname: bool,
                    now: Option<int>) {
    var verifyPeer := VerifiesPeer(ssl.verifyMode);
    && ssl.idContext == Some(session.idContext)
    && (session.idContext != [] || (session.issuer.Some? && session.issuer == ssl.issuer))
    && EqIgnoreAsciiCase(session.peer.domain, domain)
    && session.peer.sni == sni
    && (session.peer.verifyHostname || !verifyHostname)
    && (session.verifyPeer || !verifyPeer)
    && !(verifyPeer && ChainExpired(session, now))
  }

  /** Hands out a token for every callback installed, so contexts can be told apart. */
  class Issuers {
    var next: nat
    ghost var used: set<nat>

    ghost predicate Valid()
      reads this
    {
      next > 0 && forall token :: token in used ==> token < next
    }

    constructor ()
      ensures Valid() && used == {}
    {
      next, used := 1, {};
    }

    /** A token no context has had before. */
    method NewToken() returns (token: nat)
      requires Valid()
      modifies this
      ensures Valid() && token !in old(used) && used == old(used) + {token}
    {
      token := next;
      next, used := next + 1, used + {token};
    }
  }

  /** The configuration of one connection, spent by `IntoSsl`. */
  class ConnectConfiguration {
    const ssl: Ssl
    var sni: bool
    var verifyHostname: bool
    var session: Option<ClientSession>

    constructor (ssl: Ssl)
      requires ssl.peer.None? && ssl.offered.None?
      ensures this.ssl == ssl && sni && verifyHostname && session == None
    {
      this.ssl := ssl;
      sni, verifyHostname, session := true, true, None;
    }

    method SetUseServerNameIndication(useSni: bool)
      modifies this`sni
      ensures sni == useSni
    {
      sni := useSni;
    }

    method SetVerifyHostname(verify: bool)
      modifies this`verifyHostname
      ensures verifyHostname == verify
    {
      verifyHostname := verify;
    }

    method SetClientSession(offer: ClientSession)
      modifies this`session
      ensures session == Some(offer)
    {
      session := Some(offer);
    }

    /**
      The connection to `domain`. It records its peer if its context reports sessions, and offers the
      configured session exactly if it matches. It fails exactly if the TLS library `rejects` what it sets.
     */
    method IntoSsl(domain: string, isIp: bool, now: Option<int>, rejects: Rejects) returns (r: Option<Ssl>)
      requires ssl.peer.None? && ssl.offered.None?
      modifies this`session
      ensures session == None
      ensures r.Some? ==> Connects(r.value, ssl, domain, sni && !isIp, verifyHostname, now, old(session))
      ensures r.None? <==>
                || (rejects.hostname && sni && !isIp)
                || (rejects.verifiedName && verifyHostname)
                || (rejects.session && old(session).Some? &&
                    Resumes(old(session).value, ssl, domain, sni && !isIp, verifyHostname, now))
    {
      var out := ssl;
      var offer := session;
      session := None;
      var useSni := sni && !isIp;
      if useSni {
        if rejects.hostname {
          return None;
        }
        out := out.(hostname := Some(domain));
      }
      if verifyHostname {
        if rejects.verifiedName {
          return None;
        }
        out := out.(verifiedName := Some(domain));
      }
      if out.issuer.Some? {
        out := out.(peer := Some(SessionPeer(domain, useSni, verifyHostname)));
      }
      if offer.Some? && Resumes(offer.value, out, domain, useSni, verifyHostname, now) {
        if rejects.session {
          return None;
        }
        out := out.(offered := offer);
      }
      r := Some(out);
    }
  }

  /** Which settings the TLS library will not take. */
  datatype Rejects = Rejects(hostname: bool, verifiedName: bool, session: bool)

  /** `out` is the connection to `domain` made from `ssl` with these choices and this session to offer. */
  ghost predicate Connects(out: Ssl, ssl: Ssl, domain: string, sni: bool, verifyHostname: bool, now: Option<int>,
                           offer: Option<ClientSession>) {
    && out.verifyMode == ssl.verifyMode && out.idContext == ssl.idContext
    && out.issuer == ssl.issuer && out.chain == ssl.chain
    && out.hostname == (if sni then Some(domain) else ssl.hostname)
    && out.verifiedName == (if verifyHostname then Some(domain) else ssl.verifiedName)
    && out.peer == (if ssl.issuer.Some? then Some(SessionPeer(domain, sni, verifyHostname)) else None)
    && (out.offered.Some? <==> offer.Some? && Resumes(offer.value, ssl, domain, sni, verifyHostname, now))
    && (out.offered.Some? ==> out.offered == offer)
  }

  // ----- Chains of resumed connections -----

  /** One connection of a chain: how it was set up, when, and the chain its peer is known by. */
  datatype Link = Link(ssl: Ssl, domain: string, sni: bool, verifyHostname: bool, now: Option<int>)

  /** `next` resumes a session reported on `prev`. */
  ghost predicate ResumedFrom(prev: Link, next: Link) {
    && prev.ssl.peer == Some(SessionPeer(prev.domain, prev.sni, prev.verifyHostname))
    && next.ssl.offered == Some(NewSession(prev.ssl))
    && exists ssl :: Connects(next.ssl, ssl, next.domain, next.sni, next.verifyHostname, next.now, next.ssl.offered)
  }

  ghost predicate Chain(links: seq<Link>) {
    links != [] && forall k :: 0 <= k < |links| - 1 ==> ResumedFrom(links[k], links[k + 1])
  }

  /** The trust of a connection does not exceed that of another, and both speak of the same peer. */
  ghost predicate TrustsNoMore(first: Link, last: Link) {
    && (VerifiesPeer(last.ssl.verifyMode) ==> VerifiesPeer(first.ssl.verifyMode))
    && (last.verifyHostname ==> first.verifyHostname)
    && EqIgnoreAsciiCase(first.domain, last.domain)
    && first.sni == last.sni
    && SameScope(first.ssl, last.ssl)
  }

  /** The same session ID context; without one, the same issuing context. */
  ghost predicate SameScope(a: Ssl, b: Ssl) {
    && Scope(a) == Scope(b)
    && (Scope(b) == [] ==> a.issuer.Some? && a.issuer == b.issuer)
  }

  function Scope(ssl: Ssl): string { if ssl.idContext.Some? then ssl.idContext.value else [] }

  lemma ResumptionTrustsNoMore(prev: Link, next: Link)
    requires ResumedFrom(prev, next)
    ensures TrustsNoMore(prev, next)
    ensures VerifiesPeer(next.ssl.verifyMode) ==> !ChainExpired(NewSession(prev.ssl), next.now)
  {
  }

  lemma TrustTransitive(a: Link, b: Link, c: Link)
    requires TrustsNoMore(a, b) && TrustsNoMore(b, c)
    ensures TrustsNoMore(a, c)
  {
  }

  /** The peer certificate is verified exactly if the lowest bit of a nonnegative mode is set. */
  lemma VerifiesPeerIff(mode: int)
    ensures VerifiesPeer(mode) <==> mode >= 0 && mode % 2 == 1
  {
  }

  /** The same domain: equal characters, or ASCII letters that differ in case alone. */
  lemma SameDomainIff(a: string, b: string)
    ensures EqIgnoreAsciiCase(a, b) <==>
            |a| == |b| && forall k :: 0 <= k < |a| ==>
              || a[k] == b[k]
              || ('A' <= a[k] <= 'Z' && b[k] as int == a[k] as int + 32)
              || ('a' <= a[k] <= 'z' && b[k] as int == a[k] as int - 32)
  {
  }

  /** What it means, in the connections' own settings, to trust no more and speak of the same peer. */
  lemma TrustsNoMoreIff(first: Link, last: Link)
    ensures TrustsNoMore(first, last) <==>
            && (last.ssl.verifyMode >= 0 && last.ssl.verifyMode % 2 == 1 ==>
                  first.ssl.verifyMode >= 0 && first.ssl.verifyMode % 2 == 1)
            && (last.verifyHostname ==> first.verifyHostname)
            && first.sni == last.sni
            && |first.domain| == |last.domain|
            && (forall k :: 0 <= k < |first.domain| ==>
                  || first.domain[k] == last.domain[k]
                  || ('A' <= first.domain[k] <= 'Z' && last.domain[k] as int == first.domain[k] as int + 32)
                  || ('a' <= first.domain[k] <= 'z' && last.domain[k] as int == first.domain[k] as int - 32))
            && (if last.ssl.idContext in {None, Some([])}
                then
                  && first.ssl.idContext in {None, Some([])}
                  && first.ssl.issuer.Some? && first.ssl.issuer == last.ssl.issuer
                else first.ssl.idContext == last.ssl.idContext)
  {
    VerifiesPeerIff(first.ssl.verifyMode);
    VerifiesPeerIff(last.ssl.verifyMode);
    SameDomainIff(first.domain, last.domain);
  }

  /**
    Resumption chains never gain trust: however long a chain of resumptions, its last connection
    verifies no more than the full handshake it comes from, for the same domain, SNI use and scope.
   */
  lemma {:induction false} ChainsNeverGainTrust(links: seq<Link>)
    requires Chain(links) && |links| > 1
    ensures TrustsNoMore(links[0], links[|links| - 1])
    ensures |links[0].domain| == |links[|links| - 1].domain|
    ensures forall k :: 0 <= k < |links[0].domain| ==>
              var a, b := links[0].domain[k], links[|links| - 1].domain[k];
              || a == b
              || ('A' <= a <= 'Z' && b as int == a as int + 32)
              || ('a' <= a <= 'z' && b as int == a as int - 32)
    decreases |links|
  {
    var n := |links| - 1;
    ResumptionTrustsNoMore(links[n - 1], links[n]);
    if n > 1 {
      assert Chain(links[..n]);
      ChainsNeverGainTrust(links[..n]);
      TrustTransitive(links[0], links[n - 1], links[n]);
    }
    SameDomainIff(links[0].domain, links[n].domain);
  }

  /** Whether every certificate outlives `now`, as far as either is known. */
  lemma ChainExpiredIff(ssl: Ssl, now: Option<int>)
    requires ssl.peer.Some?
    ensures ChainExpired(NewSession(ssl), now) <==>
            && now.Some? && ssl.chain.Some?
            && exists k ::
                 0 <= k < |ssl.chain.value| && ssl.chain.value[k].Some? && ssl.chain.value[k].value <= now.value
  {
    if ssl.chain.Some? {
      var earliest := EarliestNotAfter(ssl.chain.value);
      if earliest.Some? {
        var k :| 0 <= k < |ssl.chain.value| && ssl.chain.value[k] == earliest;
      }
    }
  }

  /**
    A session is offered exactly where it belongs: for the same domain up to case and the same SNI use,
    within the same session ID context or, without one, the same context, to a connection that verifies no
    more; and if it verifies the peer, while no certificate has expired.
   */
  lemma OfferedIff(issued: Ssl, ssl: Ssl, out: Ssl, domain: string, sni: bool, verifyHostname: bool, now: Option<int>)
    requires issued.peer.Some?
    requires Connects(out, ssl, domain, sni, verifyHostname, now, Some(NewSession(issued)))
    ensures out.offered.Some? ==> out.offered.value == NewSession(issued)
    ensures var own := issued.peer.value;
            out.offered.Some? <==>
            && |own.domain| == |domain|
            && (forall k :: 0 <= k < |domain| ==>
                  || own.domain[k] == domain[k]
                  || ('A' <= own.domain[k] <= 'Z' && domain[k] as int == own.domain[k] as int + 32)
                  || ('a' <= own.domain[k] <= 'z' && domain[k] as int == own.domain[k] as int - 32))
            && own.sni == sni && (verifyHostname ==> own.verifyHostname)
            && ssl.idContext.Some?
            && (if ssl.idContext.value == []
                then issued.idContext in {None, Some([])} && issued.issuer.Some? && ssl.issuer == issued.issuer
                else issued.idContext == ssl.idContext)
            && (ssl.verifyMode >= 0 && ssl.verifyMode % 2 == 1 ==>
                  && issued.verifyMode >= 0 && issued.verifyMode % 2 == 1
                  && (now.Some? && issued.chain.Some? ==>
                        forall k :: 0 <= k < |issued.chain.value| && issued.chain.value[k].Some? ==>
                          now.value < issued.chain.value[k].value))
  {
    SameDomainIff(issued.peer.value.domain, domain);
    VerifiesPeerIff(ssl.verifyMode);
    VerifiesPeerIff(issued.verifyMode);
    ChainExpiredIff(issued, now);
  }

  /** A resumed connection knows its peer by the certificates of the one it resumes. */
  ghost predicate KeepsCertificates(links: seq<Link>) {
    forall k :: 0 <= k < |links| - 1 ==> links[k + 1].ssl.chain == links[k].ssl.chain
  }

  lemma {:induction false} CertificatesOfFirst(links: seq<Link>, k: nat)
    requires KeepsCertificates(links) && k < |links|
    ensures links[k].ssl.chain == links[0].ssl.chain
  {
    if k > 0 {
      CertificatesOfFirst(links, k - 1);
    }
  }

  /**
    If each resumption keeps the peer's certificates, a verifying connection, however far down the chain,
    was set up before any certificate of the original handshake expired.
   */
  lemma {:induction false} VerifiedChainsHaveNotExpired(links: seq<Link>, k: nat)
    requires Chain(links) && |links| > 1
    requires KeepsCertificates(links)
    requires links[0].ssl.chain.Some? && k < |links[0].ssl.chain.value|
    requires VerifiesPeer(links[|links| - 1].ssl.verifyMode) && links[|links| - 1].now.Some?
    ensures links[0].ssl.chain.value[k].Some? ==> links[|links| - 1].now.value < links[0].ssl.chain.value[k].value
  {
    var n := |links| - 1;
    ResumptionTrustsNoMore(links[n - 1], links[n]);
    CertificatesOfFirst(links, n - 1);
    assert NewSession(links[n - 1].ssl).notAfter == EarliestNotAfter(links[0].ssl.chain.value);
  }
}
