// Which client a request is accounted to (clientIP in internal/handler/handler.go),
// with the trusted proxies counted from the end of the header, and which paste an
// id names (keyParam there).
module ClientAddress {
  import opened Text

  // The direct peer: RemoteAddr without its port.
  function PeerHost(remoteAddr: string): string {
    var i := LastIndexOf(remoteAddr, ':');
    if i >= 0 then remoteAddr[..i] else remoteAddr
  }

  function ClientIP(forwardedFor: string, remoteAddr: string, trustedProxies: int): string {
    if trustedProxies > 0 && forwardedFor != "" then
      var parts := Split(forwardedFor, ',');
      var i := |parts| - trustedProxies;
      if 0 <= i < |parts| && Trim(parts[i]) != "" then Trim(parts[i]) else PeerHost(remoteAddr)
    else PeerHost(remoteAddr)
  }

  // The header after each trusted proxy appended one entry to what came in.
  // An absent header is the empty string.
  function Appended(incoming: string, entries: seq<string>): string {
    if incoming == "" then Join(entries, ',')
    else if entries == [] then incoming
    else incoming + [','] + Join(entries, ',')
  }

  predicate Entries(entries: seq<string>) {
    forall e <- entries :: ',' !in e
  }

  // Whatever the client put in the header, N trusted proxies make it known by the
  // entry the outermost of them appended, or by the direct peer if that is blank.
  lemma SpoofingIgnored(incoming: string, entries: seq<string>, remoteAddr: string)
    requires |entries| > 0 && Entries(entries)
    ensures ClientIP(Appended(incoming, entries), remoteAddr, |entries|) ==
            if Blank(entries[0]) then PeerHost(remoteAddr) else Trim(entries[0])
  {
    var header := Appended(incoming, entries);
    var pre, post := TrimMeaning(entries[0]);
    SplitJoin(entries, ',');
    if incoming != "" {
      SplitAppend(incoming, Join(entries, ','), ',');
      assert Split(header, ',') == Split(incoming, ',') + entries;
      assert Split(header, ',')[|Split(header, ',')| - |entries|] == entries[0];
    }
  }

  // That entry is an address behind a comma and a space, which come off.
  lemma AddressCounts(incoming: string, address: string, others: seq<string>, remoteAddr: string)
    requires Printable(address) && address != "" && ',' !in address && Entries(others)
    ensures var entry := if incoming == "" then address else " " + address;
            ClientIP(Appended(incoming, [entry] + others), remoteAddr, 1 + |others|) == address
  {
    var entry := if incoming == "" then address else " " + address;
    var entries := [entry] + others;
    assert entry == (if incoming == "" then "" else " ") + address + "";
    TrimPrintable(if incoming == "" then "" else " ", address, "");
    var pre, post := TrimMeaning(entry);
    assert forall e <- entries :: e == entry || e in others;
    SpoofingIgnored(incoming, entries, remoteAddr);
  }

  // So all of a client's requests through the proxies share one limiter bucket.
  lemma OneBucket(a: string, b: string, entries: seq<string>, peerA: string, peerB: string)
    requires |entries| > 0 && Entries(entries) && !Blank(entries[0])
    ensures ClientIP(Appended(a, entries), peerA, |entries|) == ClientIP(Appended(b, entries), peerB, |entries|)
  {
    SpoofingIgnored(a, entries, peerA);
    SpoofingIgnored(b, entries, peerB);
  }

  // With fewer entries than trusted proxies, or none trusted, the peer counts.
  lemma TooFewEntries(entries: seq<string>, remoteAddr: string, trustedProxies: int)
    requires Entries(entries) && (trustedProxies <= 0 || |entries| < trustedProxies)
    ensures ClientIP(Join(entries, ','), remoteAddr, trustedProxies) == PeerHost(remoteAddr)
  {
    if |entries| > 0 {
      SplitJoin(entries, ',');
    }
  }

  lemma PeerHostDropsPort(host: string, port: string)
    requires ':' !in port
    ensures PeerHost(host + ":" + port) == host
  {
    var s := host + ":" + port;
    var i := LastIndexOf(s, ':');
    assert s[|host|] == ':';
    assert forall k :: i < k < |s| ==> s[k] == s[i + 1..][k - i - 1];
    assert forall k :: |host| < k < |s| ==> s[k] == port[k - |host| - 1];
  }

  // keyParam
  function KeyParam(id: string): string {
    var i := IndexOf(id, '.');
    if i >= 0 then id[..i] else id
  }

  // A display extension never changes which paste is meant, and the key named is
  // the part in front of the first dot.
  lemma ExtensionIgnored(key: string, ext: string)
    requires '.' !in key
    ensures KeyParam(key) == key
    ensures KeyParam(key + "." + ext) == key
  {
    var id := key + "." + ext;
    assert id[..|key|] == key;
    FirstIndex(id, |key|, '.');
  }

  // KeyParam(id) is dot-free and id is it, alone or followed by a dot.
  lemma KeyParamMeaning(id: string)
    ensures '.' !in KeyParam(id)
    ensures id == KeyParam(id) || exists ext :: id == KeyParam(id) + "." + ext
    ensures KeyParam(KeyParam(id)) == KeyParam(id)
  {
    var i := IndexOf(id, '.');
    if i >= 0 {
      assert id == id[..i] + "." + id[i + 1..];
    }
    ExtensionIgnored(KeyParam(id), "");
  }
}
