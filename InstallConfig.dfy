/** The last step of the first-run wizard (home/control_install.go): the
    request is validated, the four install settings are committed to the
    global configuration, and they are rolled back when the DNS server does
    not start or the configuration cannot be written. */
module InstallConfig {
  import opened Wrappers

  const StatusBadRequest := 400
  const StatusInternalServerError := 500

  /** The install settings: the web interface's host and port and the DNS
      server's host and port. */
  datatype Settings = Settings(bindHost: string, bindPort: int, dnsBindHost: string, dnsPort: int)

  /** A user added by the wizard, with the password it was given. */
  datatype User = User(name: string, password: string)

  /** The part of the global `configuration` the wizard touches. */
  class Configuration {
    var firstRun: bool
    var bindHost: string
    var bindPort: int
    var dnsBindHost: string
    var dnsPort: int
    var users: seq<User>

    /** The zero value of the record (`var curConfig configuration`). */
    constructor Zero()
      ensures !firstRun && Install() == Settings("", 0, "", 0) && users == []
    {
      firstRun := false;
      bindHost := "";
      bindPort := 0;
      dnsBindHost := "";
      dnsPort := 0;
      users := [];
    }

    function Install(): Settings
      reads this
    {
      Settings(bindHost, bindPort, dnsBindHost, dnsPort)
    }
  }

  /** `copyInstallSettings`: the four install settings of `src` are copied
      into `dst`; nothing else of `dst` changes. */
  method CopyInstallSettings(dst: Configuration, src: Configuration)
    modifies dst
    ensures dst.Install() == old(src.Install())
    ensures dst.firstRun == old(dst.firstRun) && dst.users == old(dst.users)
  {
    dst.bindHost := src.bindHost;
    dst.bindPort := src.bindPort;
    dst.dnsBindHost := src.dnsBindHost;
    dst.dnsPort := src.dnsPort;
  }

  datatype Endpoint = Endpoint(ip: string, port: int)

  /** `applyConfigReq`. */
  datatype ApplyConfigRequest = ApplyConfigRequest(web: Endpoint, dns: Endpoint, username: string, password: string)

  /** The settings a request asks for. */
  function Requested(req: ApplyConfigRequest): Settings {
    Settings(req.web.ip, req.web.port, req.dns.ip, req.dns.port)
  }

  /** A port check the handler makes: the web TCP port, the DNS UDP port and
      the DNS TCP port. */
  datatype Probe = WebTcp(ip: string, port: int) | DnsUdp(ip: string, port: int) | DnsTcp(ip: string, port: int)

  datatype Cause =
    | MalformedRequest
    | ZeroPort
    | WebPortUnavailable
    | DnsUdpUnavailable
    | DnsTcpUnavailable
    | DnsStartFailed
    | ConfigWriteFailed

  datatype Response = Ok | HttpError(status: int, cause: Cause)

  /** `restartHTTP`: the web server must move unless both its host and its
      port stay as they are. */
  predicate NeedsRebind(current: Settings, req: ApplyConfigRequest) {
    !(current.bindHost == req.web.ip && current.bindPort == req.web.port)
  }

  /** The checks made before anything changes and the first that fails. */
  datatype Validation = Validation(failure: Option<Cause>, probes: seq<Probe>)

  /** The validation part of `handleInstallConfigure`: zero ports are
      refused, then the web port is checked only when it moves, then the DNS
      port over UDP and over TCP; the first failure ends it. */
  function Validate(current: Settings, req: ApplyConfigRequest,
                    tcpFree: (string, int) -> bool, udpFree: (string, int) -> bool): (v: Validation)
    ensures req.web.port == 0 || req.dns.port == 0 ==> v == Validation(Some(ZeroPort), [])
    ensures v.failure == Some(ZeroPort) <==> req.web.port == 0 || req.dns.port == 0
    ensures v.failure.None? <==>
      req.web.port != 0 && req.dns.port != 0 &&
      (NeedsRebind(current, req) ==> tcpFree(req.web.ip, req.web.port)) &&
      udpFree(req.dns.ip, req.dns.port) && tcpFree(req.dns.ip, req.dns.port)
    ensures v.failure == Some(WebPortUnavailable) <==>
      req.web.port != 0 && req.dns.port != 0 && NeedsRebind(current, req) && !tcpFree(req.web.ip, req.web.port)
    ensures v.failure == Some(DnsUdpUnavailable) <==>
      req.web.port != 0 && req.dns.port != 0 &&
      (NeedsRebind(current, req) ==> tcpFree(req.web.ip, req.web.port)) && !udpFree(req.dns.ip, req.dns.port)
    ensures v.failure == Some(DnsTcpUnavailable) <==>
      req.web.port != 0 && req.dns.port != 0 &&
      (NeedsRebind(current, req) ==> tcpFree(req.web.ip, req.web.port)) &&
      udpFree(req.dns.ip, req.dns.port) && !tcpFree(req.dns.ip, req.dns.port)
    ensures v.failure.Some? ==> v.failure.value in {ZeroPort, WebPortUnavailable, DnsUdpUnavailable, DnsTcpUnavailable}
    ensures WebTcp(req.web.ip, req.web.port) in v.probes <==> req.web.port != 0 && req.dns.port != 0 && NeedsRebind(current, req)
    ensures v.failure.None? ==> DnsUdp(req.dns.ip, req.dns.port) in v.probes && DnsTcp(req.dns.ip, req.dns.port) in v.probes
  {
    if req.web.port == 0 || req.dns.port == 0 then Validation(Some(ZeroPort), [])
    else
      var web := if NeedsRebind(current, req) then [WebTcp(req.web.ip, req.web.port)] else [];
      if web != [] && !tcpFree(req.web.ip, req.web.port) then Validation(Some(WebPortUnavailable), web)
      else if !udpFree(req.dns.ip, req.dns.port) then Validation(Some(DnsUdpUnavailable), web + [DnsUdp(req.dns.ip, req.dns.port)])
      else
        var probes := web + [DnsUdp(req.dns.ip, req.dns.port), DnsTcp(req.dns.ip, req.dns.port)];
        if !tcpFree(req.dns.ip, req.dns.port) then Validation(Some(DnsTcpUnavailable), probes)
        else Validation(None, probes)
  }

  /** `handleInstallConfigure`. The decoded request (`None` when the body
      is not valid JSON), the port checks, whether the DNS server starts and
      whether the configuration file is written are inputs. `shutdownHttp`
      says whether the web server is shut down so that it restarts on the
      new address. */
  method HandleInstallConfigure(config: Configuration, request: Option<ApplyConfigRequest>,
                                tcpFree: (string, int) -> bool, udpFree: (string, int) -> bool,
                                dnsStarts: bool, writeSucceeds: bool)
    returns (resp: Response, shutdownHttp: bool, probes: seq<Probe>)
    modifies config
    ensures request.None? ==>
      resp == HttpError(StatusBadRequest, MalformedRequest) && !shutdownHttp && probes == [] &&
      unchanged(config)
    ensures request.Some? ==>
      var req := request.value;
      var v := Validate(old(config.Install()), req, tcpFree, udpFree);
      var user := User(req.username, req.password);
      probes == v.probes &&
      (shutdownHttp <==> resp == Ok && NeedsRebind(old(config.Install()), req)) &&
      (v.failure.Some? ==>
        resp == HttpError(StatusBadRequest, v.failure.value) && unchanged(config)) &&
      (v.failure.None? && !dnsStarts ==>
        resp == HttpError(StatusInternalServerError, DnsStartFailed) &&
        config.Install() == old(config.Install()) && config.firstRun && config.users == old(config.users)) &&
      (v.failure.None? && dnsStarts && !writeSucceeds ==>
        resp == HttpError(StatusInternalServerError, ConfigWriteFailed) &&
        config.Install() == old(config.Install()) && config.firstRun && config.users == old(config.users) + [user]) &&
      (v.failure.None? && dnsStarts && writeSucceeds ==>
        resp == Ok &&
        config.Install() == Requested(req) && !config.firstRun && config.users == old(config.users) + [user])
  {
    if request.None? {
      return HttpError(StatusBadRequest, MalformedRequest), false, [];
    }
    var req := request.value;
    ghost var v := Validate(config.Install(), req, tcpFree, udpFree);
    if req.web.port == 0 || req.dns.port == 0 {
      return HttpError(StatusBadRequest, ZeroPort), false, [];
    }

    var restartHttp := true;
    if config.bindHost == req.web.ip && config.bindPort == req.web.port {
      restartHttp := false;
    }

    probes := [];
    if restartHttp {
      probes := probes + [WebTcp(req.web.ip, req.web.port)];
      if !tcpFree(req.web.ip, req.web.port) {
        return HttpError(StatusBadRequest, WebPortUnavailable), false, probes;
      }
    }
    probes := probes + [DnsUdp(req.dns.ip, req.dns.port)];
    if !udpFree(req.dns.ip, req.dns.port) {
      return HttpError(StatusBadRequest, DnsUdpUnavailable), false, probes;
    }
    probes := probes + [DnsTcp(req.dns.ip, req.dns.port)];
    if !tcpFree(req.dns.ip, req.dns.port) {
      return HttpError(StatusBadRequest, DnsTcpUnavailable), false, probes;
    }
    assert v == Validation(None, probes);
    resp := CommitInstall(config, req, dnsStarts, writeSucceeds);
    shutdownHttp := resp == Ok && restartHttp;
  }

  /** The commit part of `handleInstallConfigure`, after validation: the
      settings are saved, replaced by the requested ones with `firstRun`
      cleared, and restored with `firstRun` set again when the DNS server
      does not start or the configuration is not written. The user is added
      before the write and stays when the write fails. */
  method CommitInstall(config: Configuration, req: ApplyConfigRequest, dnsStarts: bool, writeSucceeds: bool)
    returns (resp: Response)
    modifies config
    ensures var user := User(req.username, req.password);
      (!dnsStarts ==>
        resp == HttpError(StatusInternalServerError, DnsStartFailed) &&
        config.Install() == old(config.Install()) && config.firstRun && config.users == old(config.users)) &&
      (dnsStarts && !writeSucceeds ==>
        resp == HttpError(StatusInternalServerError, ConfigWriteFailed) &&
        config.Install() == old(config.Install()) && config.firstRun && config.users == old(config.users) + [user]) &&
      (dnsStarts && writeSucceeds ==>
        resp == Ok &&
        config.Install() == Requested(req) && !config.firstRun && config.users == old(config.users) + [user])
  {
    var curConfig := new Configuration.Zero();
    CopyInstallSettings(curConfig, config);

    config.firstRun := false;
    config.bindHost := req.web.ip;
    config.bindPort := req.web.port;
    config.dnsBindHost := req.dns.ip;
    config.dnsPort := req.dns.port;

    if !dnsStarts {
      config.firstRun := true;
      CopyInstallSettings(config, curConfig);
      return HttpError(StatusInternalServerError, DnsStartFailed);
    }

    config.users := config.users + [User(req.username, req.password)];

    if !writeSucceeds {
      config.firstRun := true;
      CopyInstallSettings(config, curConfig);
      return HttpError(StatusInternalServerError, ConfigWriteFailed);
    }

    return Ok;
  }
}
