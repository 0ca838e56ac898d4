/** The host that prepare, up, down and clean act on, as abstract state: what the
    hypervisor, netlink and file calls change, and how they may fail. */
module HostMachine {
  import opened Wrappers
  import opened AddressText
  import opened NodeAddresses

  /** The error classes the callers branch on. */
  datatype Error = Nil | Skipping | Exists | NoSuchProcess | NoIPv4 | Failed

  /** `hasV4`: an IPv4 address on eth0; `hasRoute`: the route to the synthesized addresses. */
  datatype Container = Absent | Created | Running(hasV4: bool, hasRoute: bool)

  /** The DNS64 volume and the named.conf on it. */
  datatype Volume = NoVolume | Volume(conf: Option<string>)

  /** The bridge of the support network, or an interface by name. */
  datatype Link = Support | Named(name: string)

  datatype Hop = Hop(gw: Address, link: Link)

  datatype LinkAddr = LinkAddr(link: string, addr: Address, bits: nat)

  datatype File = HostsFile | ResolvConf | DropIn | KubeAdmConf

  datatype State = State(
    net: bool,
    dns64: Container,
    volume: Volume,
    nat64: Container,
    addrs: set<LinkAddr>,
    mtus: map<string, nat>,
    routes: map<Block, Hop>,
    files: map<File, string>)

  datatype Resource = SupportNet | DNS64 | NAT64 | DNS64Volume

  datatype Status = NotPresent | Present | Active

  function StatusOf(s: State, r: Resource): Status {
    match r
    case SupportNet => if s.net then Present else NotPresent
    case DNS64Volume => if s.volume.NoVolume? then NotPresent else Present
    case DNS64 => ContainerStatus(s.dns64)
    case NAT64 => ContainerStatus(s.nat64)
  }

  function ContainerStatus(k: Container): Status {
    match k
    case Absent => NotPresent
    case Created => Present
    case Running(_, _) => Active
  }

  /** Running containers have their network, a running DNS64 server its configuration,
      and routes over the support bridge that bridge. */
  predicate StepInvariant(conf: string, s: State) {
    && (s.dns64.Running? ==> s.net && s.volume == Volume(Some(conf)))
    && (s.nat64.Running? ==> s.net)
    && (forall b <- s.routes :: s.routes[b].link == Support ==> s.net)
  }

  /** How one environment call goes: it works; it fails without effect; it fails but
      leaves (part of) its effect behind. */
  datatype Outcome = Works | FailsClean | FailsDirty

  /** Whether all wishes of a call were met: the failing outcomes are chosen freely, unless
      the host is reliable. Every call starts and ends in a state that keeps the step
      invariant, so every state reached by a run of calls does. */
  class Host {
    const namedConf: string        // the configuration a DNS64 server must run with
    var s: State
    var backups: map<File, string>
    var reliable: bool             // no call fails
    var faults: nat                // calls that failed so far
    var misreported: bool          // a failed inspect was read as "not present"
    var stranded: bool             // a backup could not be put back

    constructor (conf: string, state: State, calm: bool)
      requires StepInvariant(conf, state)
      ensures Valid() && s == state && reliable == calm && namedConf == conf
      ensures faults == 0 && !misreported && !stranded && backups == map[]
    {
      namedConf, s, backups, reliable := conf, state, map[], calm;
      faults, misreported, stranded := 0, false, false;
    }

    ghost predicate Valid() reads this { StepInvariant(namedConf, s) }

    /** Counters only grow, and not at all on a reliable host. */
    twostate predicate Steady() reads this {
      && reliable == old(reliable)
      && faults >= old(faults)
      && (old(misreported) ==> misreported) && (old(stranded) ==> stranded)
      && (reliable ==> faults == old(faults) && misreported == old(misreported) && stranded == old(stranded))
    }

    /** No file call among them. */
    twostate predicate OffFiles() reads this {
      Steady() && backups == old(backups) && stranded == old(stranded)
    }

    method Attempt() returns (o: Outcome)
      modifies this`faults
      ensures if o == Works then faults == old(faults) else faults == old(faults) + 1
      ensures reliable ==> o == Works
    {
      o := Works;
      if !reliable {
        o := *;
      }
      if o != Works {
        faults := faults + 1;
      }
    }

    // ------------------------------------------------------------ hypervisor

    method ResourceState(r: Resource) returns (status: Status)
      requires Valid()
      modifies this
      ensures Valid() && OffFiles() && s == old(s)
      ensures status == StatusOf(s, r) || (status == NotPresent && misreported)
      ensures reliable ==> status == StatusOf(s, r)
    {
      var o := Attempt();
      status := StatusOf(s, r);
      if o != Works {
        if status != NotPresent { misreported := true; }
        status := NotPresent;
      }
    }

    method CreateNetwork() returns (err: Error)
      requires Valid()
      modifies this
      ensures err == Nil || err == Failed
      ensures Valid() && OffFiles() && misreported == old(misreported)
      ensures s == old(s) || s == old(s).(net := true)
      ensures err == Nil ==> s == old(s).(net := true)
      ensures reliable && !old(s.net) ==> err == Nil
    {
      if s.net { return Failed; }
      var o := Attempt();
      if o != FailsClean { s := s.(net := true); }
      err := if o == Works then Nil else Failed;
    }

    /** Refused while a container is attached. The bridge takes its routes along. */
    method DeleteNetwork() returns (err: Error)
      requires Valid()
      modifies this
      ensures err == Nil || err == Failed
      ensures Valid() && OffFiles() && misreported == old(misreported)
      ensures s == old(s) || s == WithoutNetwork(old(s))
      ensures err == Nil ==> s == WithoutNetwork(old(s)) && !old(s.dns64.Running?) && !old(s.nat64.Running?)
      ensures reliable && old(s.net) && !old(s.dns64.Running?) && !old(s.nat64.Running?) ==> err == Nil
    {
      if !s.net || s.dns64.Running? || s.nat64.Running? { return Failed; }
      var o := Attempt();
      if o != FailsClean { s := WithoutNetwork(s); }
      err := if o == Works then Nil else Failed;
    }

    /** "volume rm -f": no error when there is none, refused while a container uses it. */
    method DeleteVolume() returns (err: Error)
      requires Valid()
      modifies this
      ensures err == Nil || err == Failed
      ensures Valid() && OffFiles() && misreported == old(misreported)
      ensures s == old(s) || s == old(s).(volume := NoVolume)
      ensures err == Nil ==> s == old(s).(volume := NoVolume)
      ensures s.volume != old(s.volume) ==> s.dns64 == Absent
      ensures reliable && s.dns64 == Absent ==> err == Nil
    {
      if s.dns64 != Absent && !s.volume.NoVolume? { return Failed; }
      var o := Attempt();
      if o != FailsClean { s := s.(volume := NoVolume); }
      err := if o == Works then Nil else Failed;
    }

    method CreateVolume() returns (err: Error)
      requires Valid()
      modifies this
      ensures err == Nil || err == Failed
      ensures Valid() && OffFiles() && misreported == old(misreported)
      ensures s == old(s) || s == old(s).(volume := WithVolume(old(s.volume)))
      ensures err == Nil ==> s == old(s).(volume := WithVolume(old(s.volume)))
      ensures reliable ==> err == Nil
    {
      var o := Attempt();
      if o != FailsClean { s := s.(volume := WithVolume(s.volume)); }
      err := if o == Works then Nil else Failed;
    }

    method GetVolumeMountPoint() returns (err: Error)
      requires Valid()
      modifies this
      ensures err == Nil || err == Failed
      ensures Valid() && OffFiles() && misreported == old(misreported) && s == old(s)
      ensures err == Nil ==> s.volume.Volume?
      ensures reliable && s.volume.Volume? ==> err == Nil
    {
      var o := Attempt();
      err := if o == Works && s.volume.Volume? then Nil else Failed;
    }

    /** Writes named.conf on the volume; a failed write may leave anything there. */
    method WriteNamedConf(text: string) returns (err: Error)
      requires Valid()
      requires s.volume.Volume? && !s.dns64.Running?
      modifies this
      ensures err == Nil || err == Failed
      ensures Valid() && OffFiles() && misreported == old(misreported)
      ensures s == old(s).(volume := s.volume)
      ensures err == Nil ==> s.volume == Volume(Some(text))
      ensures reliable ==> err == Nil
    {
      var o := Attempt();
      if o == Works {
        s := s.(volume := Volume(Some(text)));
        return Nil;
      }
      var partial: Option<string> := *;
      if o == FailsDirty { s := s.(volume := Volume(partial)); }
      err := Failed;
    }

    /** "docker run": a name in use or a missing network is refused; a start that is reported
        as failed may leave a container that was created, or even runs. */
    method RunContainer(r: Resource) returns (err: Error)
      requires Valid() && (r == DNS64 || r == NAT64)
      requires s.net && (r == DNS64 ==> s.volume == Volume(Some(namedConf)))
      modifies this
      ensures err == Nil || err == Failed
      ensures Valid() && OffFiles() && misreported == old(misreported)
      ensures s == old(s) || (ContainerOf(old(s), r) == Absent
                              && (s == WithContainer(old(s), r, Created)
                                   || s == WithContainer(old(s), r, Running(true, false))))
      ensures err == Nil ==> ContainerOf(old(s), r) == Absent && s == WithContainer(old(s), r, Running(true, false))
      ensures reliable && ContainerOf(old(s), r) == Absent ==> err == Nil
    {
      if ContainerOf(s, r) != Absent { return Failed; }
      var o := Attempt();
      if o == Works {
        s := WithContainer(s, r, Running(true, false));
        return Nil;
      }
      var starts: bool := *;
      if o == FailsDirty { s := WithContainer(s, r, if starts then Running(true, false) else Created); }
      err := Failed;
    }

    method DeleteContainer(r: Resource) returns (err: Error)
      requires Valid() && (r == DNS64 || r == NAT64)
      modifies this
      ensures err == Nil || err == Failed
      ensures Valid() && OffFiles() && misreported == old(misreported)
      ensures s == old(s) || s == WithContainer(old(s), r, Absent)
      ensures err == Nil ==> s == WithContainer(old(s), r, Absent)
      ensures reliable && ContainerOf(old(s), r) != Absent ==> err == Nil
    {
      if ContainerOf(s, r) == Absent { return Failed; }
      var o := Attempt();
      if o != FailsClean { s := WithContainer(s, r, Absent); }
      err := if o == Works then Nil else Failed;
    }

    /** The DNS64 container's interface listing: whether it shows an IPv4 address. */
    method GetInterfaceConfig() returns (hasV4: bool, err: Error)
      requires Valid()
      modifies this
      ensures err == Nil || err == Failed
      ensures Valid() && OffFiles() && misreported == old(misreported) && s == old(s)
      ensures err == Nil ==> s.dns64.Running? && hasV4 == s.dns64.hasV4
      ensures reliable && s.dns64.Running? ==> err == Nil
    {
      hasV4 := false;
      if !s.dns64.Running? { return hasV4, Failed; }
      var o := Attempt();
      if o != Works { return hasV4, Failed; }
      hasV4, err := s.dns64.hasV4, Nil;
    }

    method DeleteV4Address() returns (err: Error)
      requires Valid() && s.dns64.Running?
      modifies this
      ensures err == Nil || err == Failed
      ensures Valid() && OffFiles() && misreported == old(misreported)
      ensures s == old(s) || s == old(s).(dns64 := old(s.dns64).(hasV4 := false))
      ensures err == Nil ==> s == old(s).(dns64 := old(s.dns64).(hasV4 := false))
      ensures reliable ==> err == Nil
    {
      var o := Attempt();
      if o != FailsClean { s := s.(dns64 := s.dns64.(hasV4 := false)); }
      err := if o == Works then Nil else Failed;
    }

    method AddV6Route() returns (err: Error)
      requires Valid() && s.dns64.Running?
      modifies this
      ensures err == Nil || err == Exists || err == Failed
      ensures Valid() && OffFiles() && misreported == old(misreported)
      ensures s == old(s) || s == old(s).(dns64 := old(s.dns64).(hasRoute := true))
      ensures err == Nil || err == Exists ==> s == old(s).(dns64 := old(s.dns64).(hasRoute := true))
      ensures reliable ==> err == Nil || err == Exists
    {
      var o := Attempt();
      if o == FailsClean { return Failed; }
      if s.dns64.hasRoute { return if o == Works then Exists else Failed; }
      s := s.(dns64 := s.dns64.(hasRoute := true));
      err := if o == Works then Nil else Failed;
    }

    // ------------------------------------------------------------ links, addresses, routes

    method AddAddressToLink(ip: Option<LinkAddr>) returns (err: Error)
      requires Valid()
      modifies this
      ensures err == Nil || err == Failed
      ensures Valid() && OffFiles() && misreported == old(misreported)
      ensures s == old(s) || (ip.Some? && s == old(s).(addrs := old(s.addrs) + {ip.value}))
      ensures err == Nil ==> ip.Some? && s == old(s).(addrs := old(s.addrs) + {ip.value})
      ensures reliable && ip.Some? ==> err == Nil
    {
      if ip == None { return Failed; }
      var o := Attempt();
      if o != FailsClean { s := s.(addrs := s.addrs + {ip.value}); }
      err := if o == Works then Nil else Failed;
    }

    method RemoveAddressFromLink(ip: Option<LinkAddr>) returns (err: Error)
      requires Valid()
      modifies this
      ensures Valid() && OffFiles() && misreported == old(misreported)
      ensures s == old(s) || (ip.Some? && s == old(s).(addrs := old(s.addrs) - {ip.value}))
      ensures err == Nil ==> ip.Some? && s == old(s).(addrs := old(s.addrs) - {ip.value})
      ensures reliable ==> (err == Nil <==> ip.Some? && ip.value in old(s.addrs))
    {
      if ip == None { return Failed; }
      if ip.value !in s.addrs { return Skipping; }
      var o := Attempt();
      if o != FailsClean { s := s.(addrs := s.addrs - {ip.value}); }
      err := if o == Works then Nil else Failed;
    }

    method SetLinkMTU(link: string, mtu: nat) returns (err: Error)
      requires Valid()
      modifies this
      ensures err == Nil || err == Failed
      ensures Valid() && OffFiles() && misreported == old(misreported)
      ensures s == old(s) || s == old(s).(mtus := old(s.mtus)[link := mtu])
      ensures err == Nil ==> s == old(s).(mtus := old(s.mtus)[link := mtu])
      ensures reliable ==> err == Nil
    {
      var o := Attempt();
      if o != FailsClean { s := s.(mtus := s.mtus[link := mtu]); }
      err := if o == Works then Nil else Failed;
    }

    /** Both ways of adding a route: over a named interface, or over the support bridge,
        which is found by its IPv4 address and so only while the network exists. A second
        route to a destination is refused. */
    method AddRoute(dest: Option<Block>, gw: Option<Address>, link: Link) returns (err: Error)
      requires Valid()
      modifies this
      ensures Valid() && OffFiles() && misreported == old(misreported)
      ensures s == old(s).(routes := s.routes)
      ensures s == old(s) || (dest.Some? && gw.Some? && dest.value !in old(s.routes)
                              && s.routes == old(s.routes)[dest.value := Hop(gw.value, link)])
      ensures err == Nil ==> dest.Some? && gw.Some? && dest.value !in old(s.routes)
                              && s.routes == old(s.routes)[dest.value := Hop(gw.value, link)]
      ensures err == Exists ==> s == old(s) && dest.Some? && gw.Some? && dest.value in s.routes
      ensures reliable && dest.Some? && gw.Some? && (link == Support ==> s.net) ==>
                err == if dest.value in old(s.routes) then Exists else Nil
      ensures err == Nil || err == Exists || err == Failed
    {
      if dest == None || gw == None || (link == Support && !s.net) { return Failed; }
      var o := Attempt();
      if o == FailsClean { return Failed; }
      if dest.value in s.routes { return if o == Works then Exists else Failed; }
      s := s.(routes := s.routes[dest.value := Hop(gw.value, link)]);
      err := if o == Works then Nil else Failed;
    }

    method DeleteRoute(dest: Option<Block>, gw: Option<Address>, link: Link) returns (err: Error)
      requires Valid()
      modifies this
      ensures Valid() && OffFiles() && misreported == old(misreported)
      ensures s == old(s).(routes := s.routes)
      ensures s == old(s) || (dest.Some? && gw.Some? && HasRoute(old(s), dest.value, Hop(gw.value, link))
                              && s.routes == old(s.routes) - {dest.value})
      ensures err == Nil ==> dest.Some? && gw.Some? && HasRoute(old(s), dest.value, Hop(gw.value, link))
                              && s.routes == old(s.routes) - {dest.value}
      ensures err == NoSuchProcess ==>
                s == old(s) && dest.Some? && gw.Some? && !HasRoute(s, dest.value, Hop(gw.value, link))
      ensures reliable && dest.Some? && gw.Some? && HasRoute(old(s), dest.value, Hop(gw.value, link)) ==> err == Nil
      ensures reliable && err != Nil ==> err == NoSuchProcess || err == Failed
    {
      if dest == None || gw == None || (link == Support && !s.net) { return Failed; }
      var o := Attempt();
      if o == FailsClean { return Failed; }
      if !HasRoute(s, dest.value, Hop(gw.value, link)) { return if o == Works then NoSuchProcess else Failed; }
      s := s.(routes := s.routes - {dest.value});
      err := if o == Works then Nil else Failed;
    }

    // ------------------------------------------------------------ files

    /** os.Stat as its caller reads it: a failed call counts as "there". */
    method FileExists(f: File) returns (present: bool)
      requires Valid()
      modifies this
      ensures Valid() && OffFiles() && misreported == old(misreported) && s == old(s)
      ensures f in s.files ==> present
      ensures reliable || f in s.files ==> present == (f in s.files)
    {
      var o := Attempt();
      present := f in s.files || o != Works;
    }

    method ReadFile(f: File) returns (contents: string, err: Error)
      requires Valid()
      modifies this
      ensures err == Nil || err == Failed
      ensures Valid() && OffFiles() && misreported == old(misreported) && s == old(s)
      ensures err == Nil ==> f in s.files && contents == s.files[f]
      ensures reliable && f in s.files ==> err == Nil
    {
      contents := "";
      if f !in s.files { return contents, Failed; }
      var o := Attempt();
      if o != Works { return contents, Failed; }
      contents, err := s.files[f], Nil;
    }

    /** os.Rename to the backup name; atomic. */
    method RenameToBackup(f: File) returns (err: Error)
      requires Valid()
      modifies this
      ensures err == Nil || err == Failed
      ensures Valid() && Steady() && misreported == old(misreported) && stranded == old(stranded)
      ensures faults == old(faults) + (if err == Nil || f !in old(s.files) then 0 else 1)
      ensures err != Nil ==> s == old(s) && backups == old(backups)
      ensures err == Nil ==> f in old(s.files) && s == old(s).(files := old(s.files) - {f})
                              && backups == old(backups)[f := old(s.files)[f]]
      ensures reliable && f in old(s.files) ==> err == Nil
    {
      if f !in s.files { return Failed; }
      var o := Attempt();
      if o != Works { return Failed; }
      backups := backups[f := s.files[f]];
      s := s.(files := s.files - {f});
      err := Nil;
    }

    method RenameFromBackup(f: File) returns (err: Error)
      requires Valid() && f in backups
      modifies this
      ensures err == Nil || err == Failed
      ensures Valid() && Steady() && misreported == old(misreported) && stranded == (old(stranded) || err != Nil)
      ensures faults == old(faults) + (if err == Nil then 0 else 1)
      ensures err != Nil ==> s == old(s) && backups == old(backups)
      ensures err == Nil ==> s == old(s).(files := old(s.files)[f := old(backups)[f]]) && backups == old(backups) - {f}
    {
      var o := Attempt();
      if o != Works {
        stranded := true;
        return Failed;
      }
      s := s.(files := s.files[f := backups[f]]);
      backups := backups - {f};
      err := Nil;
    }

    /** ioutil.WriteFile: a failed write may leave the file as it was, empty, or with
        any part of the contents. */
    method WriteFile(f: File, contents: string) returns (err: Error)
      requires Valid()
      modifies this
      ensures err == Nil || err == Failed
      ensures Valid() && OffFiles() && misreported == old(misreported)
      ensures faults == old(faults) + (if err == Nil then 0 else 1)
      ensures s == old(s).(files := s.files) && s.files - {f} == old(s.files) - {f}
      ensures err == Nil ==> s.files == old(s.files)[f := contents]
      ensures reliable ==> err == Nil
    {
      var o := Attempt();
      if o == Works {
        s := s.(files := s.files[f := contents]);
        return Nil;
      }
      var partial: string := *;
      if o == FailsDirty { s := s.(files := s.files[f := partial]); }
      err := Failed;
    }

    method RemoveFile(f: File) returns (err: Error)
      requires Valid()
      modifies this
      ensures err == Nil || err == Failed
      ensures Valid() && OffFiles() && misreported == old(misreported)
      ensures s == old(s) || s == old(s).(files := old(s.files) - {f})
      ensures err == Nil ==> s == old(s).(files := old(s.files) - {f})
      ensures reliable ==> (err == Nil <==> f in old(s.files))
    {
      if f !in s.files { return Failed; }
      var o := Attempt();
      if o != FailsClean { s := s.(files := s.files - {f}); }
      err := if o == Works then Nil else Failed;
    }
  }

  function WithVolume(v: Volume): Volume { if v.NoVolume? then Volume(None) else v }

  /** Deleting the network deletes its bridge and the routes over it. */
  function WithoutNetwork(s: State): State {
    s.(net := false, routes := map b | b in s.routes && s.routes[b].link != Support :: s.routes[b])
  }

  function ContainerOf(s: State, r: Resource): Container {
    if r == NAT64 then s.nat64 else s.dns64
  }

  function WithContainer(s: State, r: Resource, k: Container): State {
    if r == NAT64 then s.(nat64 := k) else s.(dns64 := k)
  }

  predicate HasRoute(s: State, dest: Block, hop: Hop) {
    dest in s.routes && s.routes[dest] == hop
  }
}
