/** The URLs of the plugin protocol, written out. */
module PluginUrls {
  import opened Bytes
  import opened PluginSpec

  const VOLUME_URLS: seq<string> := [
    "/VolumeDriver.Create", "/VolumeDriver.Remove", "/VolumeDriver.Mount", "/VolumeDriver.Path",
    "/VolumeDriver.Unmount", "/VolumeDriver.Get", "/VolumeDriver.List", "/VolumeDriver.Capabilities"
  ]

  const NETWORK_URLS: seq<string> := [
    "/NetworkDriver.GetCapabilities", "/NetworkDriver.CreateNetwork", "/NetworkDriver.AllocateNetwork",
    "/NetworkDriver.DeleteNetwork", "/NetworkDriver.FreeNetwork", "/NetworkDriver.CreateEndpoint",
    "/NetworkDriver.DeleteEndpoint", "/NetworkDriver.EndpointOperInfo", "/NetworkDriver.Join", "/NetworkDriver.Leave",
    "/NetworkDriver.DiscoverNew", "/NetworkDriver.DiscoverDelete", "/NetworkDriver.ProgramExternalConnectivity",
    "/NetworkDriver.RevokeExternalConnectivity"
  ]

  const IPAM_URLS: seq<string> := [
    "/IpamDriver.GetCapabilities", "/IpamDriver.GetDefaultAddressSpaces", "/IpamDriver.RequestPool",
    "/IpamDriver.ReleasePool", "/IpamDriver.RequestAddress", "/IpamDriver.ReleaseAddress"
  ]

  function UrlsOf(d: Driver): (r: seq<string>) {
    match d
    case VolumeDriver => VOLUME_URLS
    case NetworkDriver => NETWORK_URLS
    case IpamDriver => IPAM_URLS
  }

  lemma VolumeUrls(k: nat)
    requires k < 8
    ensures VOLUME_URLS[k] == VOLUME + VOLUME_CALLS[k]
  {
  }

  lemma FirstNetworkUrls(k: nat)
    requires k < 4
    ensures NETWORK_URLS[k] == NETWORK + NETWORK_CALLS[k]
  {
  }

  lemma SecondNetworkUrls(k: nat)
    requires 4 <= k < 8
    ensures NETWORK_URLS[k] == NETWORK + NETWORK_CALLS[k]
  {
  }

  lemma ThirdNetworkUrls(k: nat)
    requires 8 <= k < 12
    ensures NETWORK_URLS[k] == NETWORK + NETWORK_CALLS[k]
  {
  }

  lemma ProgramUrl()
    ensures NETWORK_URLS[12] == NETWORK + NETWORK_CALLS[12]
  {
  }

  lemma RevokeUrl()
    ensures NETWORK_URLS[13] == NETWORK + NETWORK_CALLS[13]
  {
  }

  lemma FirstIpamUrls(k: nat)
    requires k < 3
    ensures IPAM_URLS[k] == IPAM + IPAM_CALLS[k]
  {
  }

  lemma LastIpamUrls(k: nat)
    requires 3 <= k < 6
    ensures IPAM_URLS[k] == IPAM + IPAM_CALLS[k]
  {
  }

  lemma UrlOfMember(d: Driver, k: nat)
    ensures |UrlsOf(d)| == |CallsOf(d)| && (k < |CallsOf(d)| ==> UrlsOf(d)[k] == PrefixOf(d) + CallsOf(d)[k])
  {
    assert |VOLUME_CALLS| == 8 && |NETWORK_CALLS| == 14 && |IPAM_CALLS| == 6;
    assert |VOLUME_URLS| == 8 && |NETWORK_URLS| == 14 && |IPAM_URLS| == 6;
    if k < 8 { VolumeUrls(k); }
    if k < 4 { FirstNetworkUrls(k); } else if k < 8 { SecondNetworkUrls(k); }
    if 8 <= k < 12 { ThirdNetworkUrls(k); }
    ProgramUrl();
    RevokeUrl();
    if k < 3 { FirstIpamUrls(k); } else if k < 6 { LastIpamUrls(k); }
  }

  /** The bytes are those of the text. */
  ghost predicate Is(url: bytes, t: string) { |url| == |t| && forall i :: 0 <= i < |t| ==> url[i] == t[i] as int }

  lemma JoinsIsConcat(url: bytes, prefix: string, name: string)
    ensures Joins(url, prefix, name) <==> Is(url, prefix + name)
  {
    var t := prefix + name;
    if Joins(url, prefix, name) {
      assert url == url[..|prefix|] + url[|prefix|..];
    }
    if Is(url, t) {
      assert forall i :: 0 <= i < |prefix| ==> url[i] == t[i] as int && t[i] == prefix[i];
      assert forall i :: 0 <= i < |name| ==> url[|prefix| + i] == t[|prefix| + i] as int && t[|prefix| + i] == name[i];
    }
  }

  /** A request is routed to the member with that URL, to the activation for its own, and to nothing otherwise. */
  lemma RoutesExactly(url: bytes, t: Target)
    ensures RouteOf(url) == Activate <==> Is(url, "/Plugin.Activate")
    ensures RouteOf(url) == ToDriver(t) <==> t.member < |UrlsOf(t.driver)| && Is(url, UrlsOf(t.driver)[t.member])
    ensures RouteOf(url) == ToDriver(t) ==> t.member < |UrlsOf(t.driver)|
  {
    hide RouteOf, Joins, UrlsOf, CallsOf, PrefixOf;
    RoutesExclude(url, t);
    UrlOfMember(t.driver, t.member);
    if t.member < |UrlsOf(t.driver)| { JoinsIsConcat(url, PrefixOf(t.driver), CallsOf(t.driver)[t.member]); }
  }

  /** No URL of the protocol. */
  ghost predicate IsForeign(url: bytes) {
    && !Is(url, "/Plugin.Activate")
    && forall d: Driver, k :: 0 <= k < |UrlsOf(d)| ==> !Is(url, UrlsOf(d)[k])
  }

  lemma ForeignIsUnknown(url: bytes)
    ensures RouteOf(url) == Unknown <==> IsForeign(url)
  {
    hide RouteOf, Is, UrlsOf;
    RoutesExactly(url, Target(VolumeDriver, 0));
    forall t: Target
      ensures RouteOf(url) == ToDriver(t) <==> t.member < |UrlsOf(t.driver)| && Is(url, UrlsOf(t.driver)[t.member])
    {
      RoutesExactly(url, t);
    }
    if RouteOf(url) == Unknown {
      forall d: Driver, k | 0 <= k < |UrlsOf(d)| ensures !Is(url, UrlsOf(d)[k]) {
        assert RouteOf(url) != ToDriver(Target(d, k));
      }
    }
  }
}
