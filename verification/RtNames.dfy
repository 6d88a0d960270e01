/**
  The constants by which route messages are built, against the tables by which they are read: every attribute
  built under a named constant is found under that name, and every template field where its place is.
 */
module RtNames {
  import opened BufferPack
  import opened Bytes
  import opened Numerals
  import opened Options
  import opened Rtnetlink

  // ----- which of them are texts -----

  lemma {:induction false} Missing(s: string, t: string, c: char)
    requires c in t && c !in s
    ensures !Contains(s, t)
  {
    var i :| 0 <= i < |t| && t[i] == c;
    assert i < |s| ==> s[i] != t[i];
    if s != [] { Missing(s[1..], t, c); }
  }

  lemma {:induction false} TooShort(s: string, t: string)
    requires |s| < |t|
    ensures !Contains(s, t)
  {
    if s != [] { TooShort(s[1..], t); }
  }

  lemma TextTests()
    ensures IsText("ifname") && IsText("label") && !IsText("table")
  {
    assert "name" <= "ifname"[1..][1..] && Contains("ifname"[1..][1..], "name") && Contains("ifname"[1..], "name");
    assert "label" <= "label";
    assert "label"[1] == 'a' && "table"[0] != "label"[0];
    TooShort("table"[1..], "label");
    Missing("table", "name", 'n');
  }

  /** The interface's name and the address label are texts. */
  predicate TextName(key: string) {
    key == "ifname" || key == "label"
  }

  /** Another name is none when it lacks a letter of name and a letter of label. */
  lemma TextExactly(key: string, c: char, d: char)
    requires TextName(key) || key == "table" || (c in "name" && c !in key && d in "label" && d !in key)
    ensures IsText(key) <==> TextName(key)
  {
    TextTests();
    if !TextName(key) && key != "table" {
      Missing(key, "name", c);
      Missing(key, "label", d);
    }
  }

  // ----- attributes -----

  /** link_attributes, addr_attributes, route_attributes and neigh_attributes */
  const LINK_ATTRIBUTES: seq<(string, nat)> := [
    ("IFLA_UNSPEC", 0), ("IFLA_ADDRESS", 1), ("IFLA_BROADCAST", 2), ("IFLA_IFNAME", 3), ("IFLA_MTU", 4),
    ("IFLA_LINK", 5), ("IFLA_QDISC", 6), ("IFLA_STATS", 7), ("IFLA_COST", 8), ("IFLA_PRIORITY", 9),
    ("IFLA_MASTER", 10), ("IFLA_WIRELESS", 11), ("IFLA_PROTINFO", 12), ("IFLA_TXQLEN", 13), ("IFLA_MAP", 14),
    ("IFLA_WEIGHT", 15), ("IFLA_OPERSTATE", 16), ("IFLA_LINKMODE", 17), ("IFLA_LINKINFO", 18),
    ("IFLA_NET_NS_PID", 19), ("IFLA_IFALIAS", 20), ("IFLA_NUM_VF", 21), ("IFLA_VFINFO_LIST", 22),
    ("IFLA_STATS64", 23), ("IFLA_VF_PORTS", 24), ("IFLA_PORT_SELF", 25), ("IFLA_AF_SPEC", 26), ("IFLA_GROUP", 27),
    ("IFLA_NET_NS_FD", 28), ("IFLA_EXT_MASK", 29), ("IFLA_PROMISCUITY", 30), ("IFLA_NUM_TX_QUEUES", 31),
    ("IFLA_NUM_RX_QUEUES", 32), ("IFLA_CARRIER", 33), ("IFLA_PHYS_PORT_ID", 34), ("IFLA_CARRIER_CHANGES", 35)]
  const ADDR_ATTRIBUTES: seq<(string, nat)> := [
    ("IFA_UNSPEC", 0), ("IFA_ADDRESS", 1), ("IFA_LOCAL", 2), ("IFA_LABEL", 3), ("IFA_BROADCAST", 4),
    ("IFA_ANYCAST", 5), ("IFA_CACHEINFO", 6), ("IFA_MULTICAST", 7), ("IFA_FLAGS", 8)]
  const ROUTE_ATTRIBUTES: seq<(string, nat)> := [
    ("RTA_UNSPEC", 0), ("RTA_DST", 1), ("RTA_SRC", 2), ("RTA_IIF", 3), ("RTA_OIF", 4), ("RTA_GATEWAY", 5),
    ("RTA_PRIORITY", 6), ("RTA_PREFSRC", 7), ("RTA_METRICS", 8), ("RTA_MULTIPATH", 9), ("RTA_PROTOINFO", 10),
    ("RTA_FLOW", 11), ("RTA_CACHEINFO", 12), ("RTA_SESSION", 13), ("RTA_MP_ALGO", 14), ("RTA_TABLE", 15),
    ("RTA_MARK", 16), ("RTA_MFC_STATS", 17)]
  const NEIGH_ATTRIBUTES: seq<(string, nat)> := [
    ("NDA_UNSPEC", 0), ("NDA_DST", 1), ("NDA_LLADDR", 2), ("NDA_CACHEINFO", 3), ("NDA_PROBES", 4), ("NDA_VLAN", 5),
    ("NDA_PORT", 6), ("NDA_VNI", 7), ("NDA_IFINDEX", 8), ("NDA_MASTER", 9)]

  /** The name of a constant: what is behind its prefix, in lower case. */
  function NameOf(constant: string, prefix: nat): (name: string) {
    Lower(if prefix <= |constant| then constant[prefix..] else [])
  }

  /**
    The first n entries of a name table are the names of the constants with the numbers below n, and the parser
    takes for texts just those that are.
   */
  predicate AgreeUpTo(names: seq<string>, constants: seq<(string, nat)>, prefix: nat, n: nat) {
    && n <= |names| == |constants|
    && forall k :: 0 <= k < n ==>
         && constants[k].1 == k && NameOf(constants[k].0, prefix) == names[k]
         && (IsText(names[k]) <==> TextName(names[k]))
  }

  predicate Agree(names: seq<string>, constants: seq<(string, nat)>, prefix: nat) {
    AgreeUpTo(names, constants, prefix, |names|)
  }

  lemma NoneYet(names: seq<string>, constants: seq<(string, nat)>, prefix: nat)
    requires |names| == |constants|
    ensures AgreeUpTo(names, constants, prefix, 0)
  {
  }

  lemma Next(names: seq<string>, constants: seq<(string, nat)>, prefix: nat, n: nat, constant: string, name: string,
             c: char, d: char)
    requires AgreeUpTo(names, constants, prefix, n) && n < |names| == |constants|
    requires names[n] == name && constants[n] == (constant, n)
    requires |constant| == prefix + |name| && forall i :: 0 <= i < |name| ==> LowerChar(constant[prefix + i]) == name[i]
    requires TextName(name) || name == "table" || (c in "name" && c !in name && d in "label" && d !in name)
    ensures AgreeUpTo(names, constants, prefix, n + 1)
  {
    TextExactly(name, c, d);
    hide IsText, TextName;
    assert NameOf(constant, prefix) == name;
  }

  lemma LinkEntries0()
    requires AgreeUpTo(LINK_NAMES, LINK_ATTRIBUTES, 5, 0)
    ensures AgreeUpTo(LINK_NAMES, LINK_ATTRIBUTES, 5, 2)
  {
    hide AgreeUpTo;
    Next(LINK_NAMES, LINK_ATTRIBUTES, 5, 0, "IFLA_UNSPEC", "unspec", 'a', 'l');
    Next(LINK_NAMES, LINK_ATTRIBUTES, 5, 1, "IFLA_ADDRESS", "address", 'n', 'l');
  }

  lemma LinkEntries2()
    requires AgreeUpTo(LINK_NAMES, LINK_ATTRIBUTES, 5, 2)
    ensures AgreeUpTo(LINK_NAMES, LINK_ATTRIBUTES, 5, 4)
  {
    hide AgreeUpTo;
    Next(LINK_NAMES, LINK_ATTRIBUTES, 5, 2, "IFLA_BROADCAST", "broadcast", 'n', 'l');
    Next(LINK_NAMES, LINK_ATTRIBUTES, 5, 3, "IFLA_IFNAME", "ifname", 'n', 'l');
  }

  lemma LinkEntries4()
    requires AgreeUpTo(LINK_NAMES, LINK_ATTRIBUTES, 5, 4)
    ensures AgreeUpTo(LINK_NAMES, LINK_ATTRIBUTES, 5, 6)
  {
    hide AgreeUpTo;
    Next(LINK_NAMES, LINK_ATTRIBUTES, 5, 4, "IFLA_MTU", "mtu", 'n', 'l');
    Next(LINK_NAMES, LINK_ATTRIBUTES, 5, 5, "IFLA_LINK", "link", 'a', 'a');
  }

  lemma LinkEntries6()
    requires AgreeUpTo(LINK_NAMES, LINK_ATTRIBUTES, 5, 6)
    ensures AgreeUpTo(LINK_NAMES, LINK_ATTRIBUTES, 5, 8)
  {
    hide AgreeUpTo;
    Next(LINK_NAMES, LINK_ATTRIBUTES, 5, 6, "IFLA_QDISC", "qdisc", 'n', 'l');
    Next(LINK_NAMES, LINK_ATTRIBUTES, 5, 7, "IFLA_STATS", "stats", 'n', 'l');
  }

  lemma LinkEntries8()
    requires AgreeUpTo(LINK_NAMES, LINK_ATTRIBUTES, 5, 8)
    ensures AgreeUpTo(LINK_NAMES, LINK_ATTRIBUTES, 5, 10)
  {
    hide AgreeUpTo;
    Next(LINK_NAMES, LINK_ATTRIBUTES, 5, 8, "IFLA_COST", "cost", 'n', 'l');
    Next(LINK_NAMES, LINK_ATTRIBUTES, 5, 9, "IFLA_PRIORITY", "priority", 'n', 'l');
  }

  lemma LinkEntries10()
    requires AgreeUpTo(LINK_NAMES, LINK_ATTRIBUTES, 5, 10)
    ensures AgreeUpTo(LINK_NAMES, LINK_ATTRIBUTES, 5, 12)
  {
    hide AgreeUpTo;
    Next(LINK_NAMES, LINK_ATTRIBUTES, 5, 10, "IFLA_MASTER", "master", 'n', 'l');
    Next(LINK_NAMES, LINK_ATTRIBUTES, 5, 11, "IFLA_WIRELESS", "wireless", 'n', 'a');
  }

  lemma LinkEntries12()
    requires AgreeUpTo(LINK_NAMES, LINK_ATTRIBUTES, 5, 12)
    ensures AgreeUpTo(LINK_NAMES, LINK_ATTRIBUTES, 5, 14)
  {
    hide AgreeUpTo;
    Next(LINK_NAMES, LINK_ATTRIBUTES, 5, 12, "IFLA_PROTINFO", "protinfo", 'a', 'l');
    Next(LINK_NAMES, LINK_ATTRIBUTES, 5, 13, "IFLA_TXQLEN", "txqlen", 'a', 'a');
  }

  lemma LinkEntries14()
    requires AgreeUpTo(LINK_NAMES, LINK_ATTRIBUTES, 5, 14)
    ensures AgreeUpTo(LINK_NAMES, LINK_ATTRIBUTES, 5, 16)
  {
    hide AgreeUpTo;
    Next(LINK_NAMES, LINK_ATTRIBUTES, 5, 14, "IFLA_MAP", "map", 'n', 'l');
    Next(LINK_NAMES, LINK_ATTRIBUTES, 5, 15, "IFLA_WEIGHT", "weight", 'n', 'l');
  }

  lemma LinkEntries16()
    requires AgreeUpTo(LINK_NAMES, LINK_ATTRIBUTES, 5, 16)
    ensures AgreeUpTo(LINK_NAMES, LINK_ATTRIBUTES, 5, 18)
  {
    hide AgreeUpTo;
    Next(LINK_NAMES, LINK_ATTRIBUTES, 5, 16, "IFLA_OPERSTATE", "operstate", 'n', 'l');
    Next(LINK_NAMES, LINK_ATTRIBUTES, 5, 17, "IFLA_LINKMODE", "linkmode", 'a', 'a');
  }

  lemma LinkEntries18()
    requires AgreeUpTo(LINK_NAMES, LINK_ATTRIBUTES, 5, 18)
    ensures AgreeUpTo(LINK_NAMES, LINK_ATTRIBUTES, 5, 20)
  {
    hide AgreeUpTo;
    Next(LINK_NAMES, LINK_ATTRIBUTES, 5, 18, "IFLA_LINKINFO", "linkinfo", 'a', 'a');
    Next(LINK_NAMES, LINK_ATTRIBUTES, 5, 19, "IFLA_NET_NS_PID", "net_ns_pid", 'a', 'l');
  }

  lemma LinkEntries20()
    requires AgreeUpTo(LINK_NAMES, LINK_ATTRIBUTES, 5, 20)
    ensures AgreeUpTo(LINK_NAMES, LINK_ATTRIBUTES, 5, 22)
  {
    hide AgreeUpTo;
    Next(LINK_NAMES, LINK_ATTRIBUTES, 5, 20, "IFLA_IFALIAS", "ifalias", 'n', 'b');
    Next(LINK_NAMES, LINK_ATTRIBUTES, 5, 21, "IFLA_NUM_VF", "num_vf", 'a', 'l');
  }

  lemma LinkEntries22()
    requires AgreeUpTo(LINK_NAMES, LINK_ATTRIBUTES, 5, 22)
    ensures AgreeUpTo(LINK_NAMES, LINK_ATTRIBUTES, 5, 24)
  {
    hide AgreeUpTo;
    Next(LINK_NAMES, LINK_ATTRIBUTES, 5, 22, "IFLA_VFINFO_LIST", "vfinfo_list", 'a', 'a');
    Next(LINK_NAMES, LINK_ATTRIBUTES, 5, 23, "IFLA_STATS64", "stats64", 'n', 'l');
  }

  lemma LinkEntries24()
    requires AgreeUpTo(LINK_NAMES, LINK_ATTRIBUTES, 5, 24)
    ensures AgreeUpTo(LINK_NAMES, LINK_ATTRIBUTES, 5, 26)
  {
    hide AgreeUpTo;
    Next(LINK_NAMES, LINK_ATTRIBUTES, 5, 24, "IFLA_VF_PORTS", "vf_ports", 'n', 'l');
    Next(LINK_NAMES, LINK_ATTRIBUTES, 5, 25, "IFLA_PORT_SELF", "port_self", 'n', 'a');
  }

  lemma LinkEntries26()
    requires AgreeUpTo(LINK_NAMES, LINK_ATTRIBUTES, 5, 26)
    ensures AgreeUpTo(LINK_NAMES, LINK_ATTRIBUTES, 5, 28)
  {
    hide AgreeUpTo;
    Next(LINK_NAMES, LINK_ATTRIBUTES, 5, 26, "IFLA_AF_SPEC", "af_spec", 'n', 'l');
    Next(LINK_NAMES, LINK_ATTRIBUTES, 5, 27, "IFLA_GROUP", "group", 'n', 'l');
  }

  lemma LinkEntries28()
    requires AgreeUpTo(LINK_NAMES, LINK_ATTRIBUTES, 5, 28)
    ensures AgreeUpTo(LINK_NAMES, LINK_ATTRIBUTES, 5, 30)
  {
    hide AgreeUpTo;
    Next(LINK_NAMES, LINK_ATTRIBUTES, 5, 28, "IFLA_NET_NS_FD", "net_ns_fd", 'a', 'l');
    Next(LINK_NAMES, LINK_ATTRIBUTES, 5, 29, "IFLA_EXT_MASK", "ext_mask", 'n', 'l');
  }

  lemma LinkEntries30()
    requires AgreeUpTo(LINK_NAMES, LINK_ATTRIBUTES, 5, 30)
    ensures AgreeUpTo(LINK_NAMES, LINK_ATTRIBUTES, 5, 32)
  {
    hide AgreeUpTo;
    Next(LINK_NAMES, LINK_ATTRIBUTES, 5, 30, "IFLA_PROMISCUITY", "promiscuity", 'n', 'l');
    Next(LINK_NAMES, LINK_ATTRIBUTES, 5, 31, "IFLA_NUM_TX_QUEUES", "num_tx_queues", 'a', 'l');
  }

  lemma LinkEntries32()
    requires AgreeUpTo(LINK_NAMES, LINK_ATTRIBUTES, 5, 32)
    ensures AgreeUpTo(LINK_NAMES, LINK_ATTRIBUTES, 5, 34)
  {
    hide AgreeUpTo;
    Next(LINK_NAMES, LINK_ATTRIBUTES, 5, 32, "IFLA_NUM_RX_QUEUES", "num_rx_queues", 'a', 'l');
    Next(LINK_NAMES, LINK_ATTRIBUTES, 5, 33, "IFLA_CARRIER", "carrier", 'n', 'l');
  }

  lemma LinkEntries34()
    requires AgreeUpTo(LINK_NAMES, LINK_ATTRIBUTES, 5, 34)
    ensures AgreeUpTo(LINK_NAMES, LINK_ATTRIBUTES, 5, 36)
  {
    hide AgreeUpTo;
    Next(LINK_NAMES, LINK_ATTRIBUTES, 5, 34, "IFLA_PHYS_PORT_ID", "phys_port_id", 'n', 'l');
    Next(LINK_NAMES, LINK_ATTRIBUTES, 5, 35, "IFLA_CARRIER_CHANGES", "carrier_changes", 'm', 'l');
  }

  lemma LinkNamesAgree()
    ensures Agree(LINK_NAMES, LINK_ATTRIBUTES, 5)
  {
    assert |LINK_NAMES| == |LINK_ATTRIBUTES| == 36;
    NoneYet(LINK_NAMES, LINK_ATTRIBUTES, 5);
    hide AgreeUpTo, LINK_NAMES, LINK_ATTRIBUTES;
    LinkEntries0();
    LinkEntries2();
    LinkEntries4();
    LinkEntries6();
    LinkEntries8();
    LinkEntries10();
    LinkEntries12();
    LinkEntries14();
    LinkEntries16();
    LinkEntries18();
    LinkEntries20();
    LinkEntries22();
    LinkEntries24();
    LinkEntries26();
    LinkEntries28();
    LinkEntries30();
    LinkEntries32();
    LinkEntries34();
  }

  lemma AddrEntries0()
    requires AgreeUpTo(ADDR_NAMES, ADDR_ATTRIBUTES, 4, 0)
    ensures AgreeUpTo(ADDR_NAMES, ADDR_ATTRIBUTES, 4, 2)
  {
    hide AgreeUpTo;
    Next(ADDR_NAMES, ADDR_ATTRIBUTES, 4, 0, "IFA_UNSPEC", "unspec", 'a', 'l');
    Next(ADDR_NAMES, ADDR_ATTRIBUTES, 4, 1, "IFA_ADDRESS", "address", 'n', 'l');
  }

  lemma AddrEntries2()
    requires AgreeUpTo(ADDR_NAMES, ADDR_ATTRIBUTES, 4, 2)
    ensures AgreeUpTo(ADDR_NAMES, ADDR_ATTRIBUTES, 4, 4)
  {
    hide AgreeUpTo;
    Next(ADDR_NAMES, ADDR_ATTRIBUTES, 4, 2, "IFA_LOCAL", "local", 'n', 'b');
    Next(ADDR_NAMES, ADDR_ATTRIBUTES, 4, 3, "IFA_LABEL", "label", 'n', 'l');
  }

  lemma AddrEntries4()
    requires AgreeUpTo(ADDR_NAMES, ADDR_ATTRIBUTES, 4, 4)
    ensures AgreeUpTo(ADDR_NAMES, ADDR_ATTRIBUTES, 4, 6)
  {
    hide AgreeUpTo;
    Next(ADDR_NAMES, ADDR_ATTRIBUTES, 4, 4, "IFA_BROADCAST", "broadcast", 'n', 'l');
    Next(ADDR_NAMES, ADDR_ATTRIBUTES, 4, 5, "IFA_ANYCAST", "anycast", 'm', 'l');
  }

  lemma AddrEntries6()
    requires AgreeUpTo(ADDR_NAMES, ADDR_ATTRIBUTES, 4, 6)
    ensures AgreeUpTo(ADDR_NAMES, ADDR_ATTRIBUTES, 4, 8)
  {
    hide AgreeUpTo;
    Next(ADDR_NAMES, ADDR_ATTRIBUTES, 4, 6, "IFA_CACHEINFO", "cacheinfo", 'm', 'l');
    Next(ADDR_NAMES, ADDR_ATTRIBUTES, 4, 7, "IFA_MULTICAST", "multicast", 'n', 'b');
  }

  lemma AddrEntries8()
    requires AgreeUpTo(ADDR_NAMES, ADDR_ATTRIBUTES, 4, 8)
    ensures AgreeUpTo(ADDR_NAMES, ADDR_ATTRIBUTES, 4, 9)
  {
    hide AgreeUpTo;
    Next(ADDR_NAMES, ADDR_ATTRIBUTES, 4, 8, "IFA_FLAGS", "flags", 'n', 'b');
  }

  lemma AddrNamesAgree()
    ensures Agree(ADDR_NAMES, ADDR_ATTRIBUTES, 4)
  {
    assert |ADDR_NAMES| == |ADDR_ATTRIBUTES| == 9;
    NoneYet(ADDR_NAMES, ADDR_ATTRIBUTES, 4);
    hide AgreeUpTo, ADDR_NAMES, ADDR_ATTRIBUTES;
    AddrEntries0();
    AddrEntries2();
    AddrEntries4();
    AddrEntries6();
    AddrEntries8();
  }

  lemma RouteEntries0()
    requires AgreeUpTo(ROUTE_NAMES, ROUTE_ATTRIBUTES, 4, 0)
    ensures AgreeUpTo(ROUTE_NAMES, ROUTE_ATTRIBUTES, 4, 2)
  {
    hide AgreeUpTo;
    Next(ROUTE_NAMES, ROUTE_ATTRIBUTES, 4, 0, "RTA_UNSPEC", "unspec", 'a', 'l');
    Next(ROUTE_NAMES, ROUTE_ATTRIBUTES, 4, 1, "RTA_DST", "dst", 'n', 'l');
  }

  lemma RouteEntries2()
    requires AgreeUpTo(ROUTE_NAMES, ROUTE_ATTRIBUTES, 4, 2)
    ensures AgreeUpTo(ROUTE_NAMES, ROUTE_ATTRIBUTES, 4, 4)
  {
    hide AgreeUpTo;
    Next(ROUTE_NAMES, ROUTE_ATTRIBUTES, 4, 2, "RTA_SRC", "src", 'n', 'l');
    Next(ROUTE_NAMES, ROUTE_ATTRIBUTES, 4, 3, "RTA_IIF", "iif", 'n', 'l');
  }

  lemma RouteEntries4()
    requires AgreeUpTo(ROUTE_NAMES, ROUTE_ATTRIBUTES, 4, 4)
    ensures AgreeUpTo(ROUTE_NAMES, ROUTE_ATTRIBUTES, 4, 6)
  {
    hide AgreeUpTo;
    Next(ROUTE_NAMES, ROUTE_ATTRIBUTES, 4, 4, "RTA_OIF", "oif", 'n', 'l');
    Next(ROUTE_NAMES, ROUTE_ATTRIBUTES, 4, 5, "RTA_GATEWAY", "gateway", 'n', 'l');
  }

  lemma RouteEntries6()
    requires AgreeUpTo(ROUTE_NAMES, ROUTE_ATTRIBUTES, 4, 6)
    ensures AgreeUpTo(ROUTE_NAMES, ROUTE_ATTRIBUTES, 4, 8)
  {
    hide AgreeUpTo;
    Next(ROUTE_NAMES, ROUTE_ATTRIBUTES, 4, 6, "RTA_PRIORITY", "priority", 'n', 'l');
    Next(ROUTE_NAMES, ROUTE_ATTRIBUTES, 4, 7, "RTA_PREFSRC", "prefsrc", 'n', 'l');
  }

  lemma RouteEntries8()
    requires AgreeUpTo(ROUTE_NAMES, ROUTE_ATTRIBUTES, 4, 8)
    ensures AgreeUpTo(ROUTE_NAMES, ROUTE_ATTRIBUTES, 4, 10)
  {
    hide AgreeUpTo;
    Next(ROUTE_NAMES, ROUTE_ATTRIBUTES, 4, 8, "RTA_METRICS", "metrics", 'n', 'l');
    Next(ROUTE_NAMES, ROUTE_ATTRIBUTES, 4, 9, "RTA_MULTIPATH", "multipath", 'n', 'b');
  }

  lemma RouteEntries10()
    requires AgreeUpTo(ROUTE_NAMES, ROUTE_ATTRIBUTES, 4, 10)
    ensures AgreeUpTo(ROUTE_NAMES, ROUTE_ATTRIBUTES, 4, 12)
  {
    hide AgreeUpTo;
    Next(ROUTE_NAMES, ROUTE_ATTRIBUTES, 4, 10, "RTA_PROTOINFO", "protoinfo", 'a', 'l');
    Next(ROUTE_NAMES, ROUTE_ATTRIBUTES, 4, 11, "RTA_FLOW", "flow", 'n', 'a');
  }

  lemma RouteEntries12()
    requires AgreeUpTo(ROUTE_NAMES, ROUTE_ATTRIBUTES, 4, 12)
    ensures AgreeUpTo(ROUTE_NAMES, ROUTE_ATTRIBUTES, 4, 14)
  {
    hide AgreeUpTo;
    Next(ROUTE_NAMES, ROUTE_ATTRIBUTES, 4, 12, "RTA_CACHEINFO", "cacheinfo", 'm', 'l');
    Next(ROUTE_NAMES, ROUTE_ATTRIBUTES, 4, 13, "RTA_SESSION", "session", 'a', 'l');
  }

  lemma RouteEntries14()
    requires AgreeUpTo(ROUTE_NAMES, ROUTE_ATTRIBUTES, 4, 14)
    ensures AgreeUpTo(ROUTE_NAMES, ROUTE_ATTRIBUTES, 4, 16)
  {
    hide AgreeUpTo;
    Next(ROUTE_NAMES, ROUTE_ATTRIBUTES, 4, 14, "RTA_MP_ALGO", "mp_algo", 'n', 'b');
    Next(ROUTE_NAMES, ROUTE_ATTRIBUTES, 4, 15, "RTA_TABLE", "table", 'n', 'l');
  }

  lemma RouteEntries16()
    requires AgreeUpTo(ROUTE_NAMES, ROUTE_ATTRIBUTES, 4, 16)
    ensures AgreeUpTo(ROUTE_NAMES, ROUTE_ATTRIBUTES, 4, 18)
  {
    hide AgreeUpTo;
    Next(ROUTE_NAMES, ROUTE_ATTRIBUTES, 4, 16, "RTA_MARK", "mark", 'n', 'l');
    Next(ROUTE_NAMES, ROUTE_ATTRIBUTES, 4, 17, "RTA_MFC_STATS", "mfc_stats", 'n', 'l');
  }

  lemma RouteNamesAgree()
    ensures Agree(ROUTE_NAMES, ROUTE_ATTRIBUTES, 4)
  {
    assert |ROUTE_NAMES| == |ROUTE_ATTRIBUTES| == 18;
    NoneYet(ROUTE_NAMES, ROUTE_ATTRIBUTES, 4);
    hide AgreeUpTo, ROUTE_NAMES, ROUTE_ATTRIBUTES;
    RouteEntries0();
    RouteEntries2();
    RouteEntries4();
    RouteEntries6();
    RouteEntries8();
    RouteEntries10();
    RouteEntries12();
    RouteEntries14();
    RouteEntries16();
  }

  lemma NeighEntries0()
    requires AgreeUpTo(NEIGH_NAMES, NEIGH_ATTRIBUTES, 4, 0)
    ensures AgreeUpTo(NEIGH_NAMES, NEIGH_ATTRIBUTES, 4, 2)
  {
    hide AgreeUpTo;
    Next(NEIGH_NAMES, NEIGH_ATTRIBUTES, 4, 0, "NDA_UNSPEC", "unspec", 'a', 'l');
    Next(NEIGH_NAMES, NEIGH_ATTRIBUTES, 4, 1, "NDA_DST", "dst", 'n', 'l');
  }

  lemma NeighEntries2()
    requires AgreeUpTo(NEIGH_NAMES, NEIGH_ATTRIBUTES, 4, 2)
    ensures AgreeUpTo(NEIGH_NAMES, NEIGH_ATTRIBUTES, 4, 4)
  {
    hide AgreeUpTo;
    Next(NEIGH_NAMES, NEIGH_ATTRIBUTES, 4, 2, "NDA_LLADDR", "lladdr", 'n', 'b');
    Next(NEIGH_NAMES, NEIGH_ATTRIBUTES, 4, 3, "NDA_CACHEINFO", "cacheinfo", 'm', 'l');
  }

  lemma NeighEntries4()
    requires AgreeUpTo(NEIGH_NAMES, NEIGH_ATTRIBUTES, 4, 4)
    ensures AgreeUpTo(NEIGH_NAMES, NEIGH_ATTRIBUTES, 4, 6)
  {
    hide AgreeUpTo;
    Next(NEIGH_NAMES, NEIGH_ATTRIBUTES, 4, 4, "NDA_PROBES", "probes", 'n', 'l');
    Next(NEIGH_NAMES, NEIGH_ATTRIBUTES, 4, 5, "NDA_VLAN", "vlan", 'm', 'b');
  }

  lemma NeighEntries6()
    requires AgreeUpTo(NEIGH_NAMES, NEIGH_ATTRIBUTES, 4, 6)
    ensures AgreeUpTo(NEIGH_NAMES, NEIGH_ATTRIBUTES, 4, 8)
  {
    hide AgreeUpTo;
    Next(NEIGH_NAMES, NEIGH_ATTRIBUTES, 4, 6, "NDA_PORT", "port", 'n', 'l');
    Next(NEIGH_NAMES, NEIGH_ATTRIBUTES, 4, 7, "NDA_VNI", "vni", 'a', 'l');
  }

  lemma NeighEntries8()
    requires AgreeUpTo(NEIGH_NAMES, NEIGH_ATTRIBUTES, 4, 8)
    ensures AgreeUpTo(NEIGH_NAMES, NEIGH_ATTRIBUTES, 4, 10)
  {
    hide AgreeUpTo;
    Next(NEIGH_NAMES, NEIGH_ATTRIBUTES, 4, 8, "NDA_IFINDEX", "ifindex", 'a', 'l');
    Next(NEIGH_NAMES, NEIGH_ATTRIBUTES, 4, 9, "NDA_MASTER", "master", 'n', 'l');
  }

  lemma NeighNamesAgree()
    ensures Agree(NEIGH_NAMES, NEIGH_ATTRIBUTES, 4)
  {
    assert |NEIGH_NAMES| == |NEIGH_ATTRIBUTES| == 10;
    NoneYet(NEIGH_NAMES, NEIGH_ATTRIBUTES, 4);
    hide AgreeUpTo, NEIGH_NAMES, NEIGH_ATTRIBUTES;
    NeighEntries0();
    NeighEntries2();
    NeighEntries4();
    NeighEntries6();
    NeighEntries8();
  }

  // ----- what is found -----

  /** toString('ascii') drops the top bit of each byte, and so keeps a text of ASCII as it is. */
  lemma {:induction false} AsciiIs(bs: seq<Byte>, i: nat)
    requires i < |bs|
    ensures Ascii(bs)[i] == bs[i] % 128
  {
    if i > 0 { AsciiIs(bs[1..], i - 1); }
  }

  lemma AsciiKeeps(bs: seq<Byte>)
    requires forall i :: 0 <= i < |bs| ==> bs[i] < 128
    ensures Ascii(bs) == bs
  {
    hide Ascii;
    forall i | 0 <= i < |bs| ensures Ascii(bs)[i] == bs[i] { AsciiIs(bs, i); }
  }

  /**
    The data of an attribute that was built with the number of a named constant is found under the name of that
    constant, when it is the last of its type: as text without its last byte, or as the bytes.
   */
  lemma ConstantFound(names: seq<string>, constants: seq<(string, nat)>, prefix: nat, attrs: seq<Attr>, i: nat, n: nat)
    requires Agree(names, constants, prefix) && Distinct(names) && n < |constants|
    requires i < |attrs| && attrs[i].typ == constants[n].1 && forall j :: i < j < |attrs| ==> attrs[j].typ != attrs[i].typ
    ensures FoundAs(FieldsOf(attrs, names, map[]), NameOf(constants[n].0, prefix), attrs[i].data)
  {
    hide Distinct, FieldsOf, NameOf, IsText, Ascii;
    EveryFieldFound(attrs, names, map[], i);
    assert NameOf(constants[n].0, prefix) == names[n] && (IsText(names[n]) <==> TextName(names[n]));
  }

  /** data is what fields hold under a name. */
  predicate FoundAs(fields: map<string, Field>, key: string, data: seq<Byte>) {
    && key in fields
    && fields[key] == if key == "ifname" || key == "label" then Name(if data == [] then [] else Ascii(data[..|data| - 1]))
                      else Slice(data)
  }

  /** In particular, of link_attributes: what was built as IFLA_ADDRESS is found under address, and so on. */
  lemma LinkFieldFound(attrs: seq<Attr>, i: nat, n: nat)
    requires i < |attrs| && n < |LINK_ATTRIBUTES| && attrs[i].typ == LINK_ATTRIBUTES[n].1
    requires forall j :: i < j < |attrs| ==> attrs[j].typ != attrs[i].typ
    ensures FoundAs(FieldsOf(attrs, LINK_NAMES, map[]), NameOf(LINK_ATTRIBUTES[n].0, 5), attrs[i].data)
  {
    hide *;
    LinkNamesAgree();
    LinkNamesDistinct();
    ConstantFound(LINK_NAMES, LINK_ATTRIBUTES, 5, attrs, i, n);
  }

  lemma AddrFieldFound(attrs: seq<Attr>, i: nat, n: nat)
    requires i < |attrs| && n < |ADDR_ATTRIBUTES| && attrs[i].typ == ADDR_ATTRIBUTES[n].1
    requires forall j :: i < j < |attrs| ==> attrs[j].typ != attrs[i].typ
    ensures FoundAs(FieldsOf(attrs, ADDR_NAMES, map[]), NameOf(ADDR_ATTRIBUTES[n].0, 4), attrs[i].data)
  {
    hide *;
    AddrNamesAgree();
    OtherNamesDistinct();
    ConstantFound(ADDR_NAMES, ADDR_ATTRIBUTES, 4, attrs, i, n);
  }

  lemma RouteFieldFound(attrs: seq<Attr>, i: nat, n: nat)
    requires i < |attrs| && n < |ROUTE_ATTRIBUTES| && attrs[i].typ == ROUTE_ATTRIBUTES[n].1
    requires forall j :: i < j < |attrs| ==> attrs[j].typ != attrs[i].typ
    ensures FoundAs(FieldsOf(attrs, ROUTE_NAMES, map[]), NameOf(ROUTE_ATTRIBUTES[n].0, 4), attrs[i].data)
  {
    hide *;
    RouteNamesAgree();
    OtherNamesDistinct();
    ConstantFound(ROUTE_NAMES, ROUTE_ATTRIBUTES, 4, attrs, i, n);
  }

  lemma NeighFieldFound(attrs: seq<Attr>, i: nat, n: nat)
    requires i < |attrs| && n < |NEIGH_ATTRIBUTES| && attrs[i].typ == NEIGH_ATTRIBUTES[n].1
    requires forall j :: i < j < |attrs| ==> attrs[j].typ != attrs[i].typ
    ensures FoundAs(FieldsOf(attrs, NEIGH_NAMES, map[]), NameOf(NEIGH_ATTRIBUTES[n].0, 4), attrs[i].data)
  {
    hide *;
    NeighNamesAgree();
    OtherNamesDistinct();
    ConstantFound(NEIGH_NAMES, NEIGH_ATTRIBUTES, 4, attrs, i, n);
  }

  // ----- message types -----

  /** The message types that are supported, and RTM_SETLINK between them. */
  const MESSAGE_TYPES: seq<(string, nat)> := [
    ("RTM_NEWLINK", 16), ("RTM_DELLINK", 17), ("RTM_GETLINK", 18), ("RTM_SETLINK", 19), ("RTM_NEWADDR", 20),
    ("RTM_DELADDR", 21), ("RTM_GETADDR", 22), ("RTM_NEWROUTE", 24), ("RTM_DELROUTE", 25), ("RTM_GETROUTE", 26),
    ("RTM_NEWNEIGH", 28), ("RTM_DELNEIGH", 29), ("RTM_GETNEIGH", 30)]

  /** The operation of a type begins with its name: RTM_NEWADDR is newAddress. */
  predicate Operates(constant: string, typ: nat) {
    16 <= typ <= 30 && |TYPE_NAMES| == 15 && NameOf(constant, 4) <= Lower(TYPE_NAMES[typ - 16])
  }

  lemma Operation(constant: string, typ: nat, operation: string)
    requires 16 <= typ <= 30 && |TYPE_NAMES| == 15 && TYPE_NAMES[typ - 16] == operation
    requires 4 <= |constant| <= 4 + |operation|
    requires forall i :: 0 <= i < |constant| - 4 ==> LowerChar(constant[4 + i]) == LowerChar(operation[i])
    ensures Operates(constant, typ)
  {
    assert NameOf(constant, 4) == Lower(operation)[..|constant| - 4];
  }

  lemma LinkOperations()
    ensures Operates("RTM_NEWLINK", 16) && Operates("RTM_DELLINK", 17) && Operates("RTM_GETLINK", 18)
  {
    hide NameOf, Lower, Operates;
    Operation("RTM_NEWLINK", 16, "newLink");
    Operation("RTM_DELLINK", 17, "delLink");
    Operation("RTM_GETLINK", 18, "getLink");
  }

  lemma AddrOperations()
    ensures Operates("RTM_NEWADDR", 20) && Operates("RTM_DELADDR", 21) && Operates("RTM_GETADDR", 22)
  {
    hide NameOf, Lower, Operates;
    Operation("RTM_NEWADDR", 20, "newAddress");
    Operation("RTM_DELADDR", 21, "delAddress");
    Operation("RTM_GETADDR", 22, "getAddress");
  }

  lemma RouteOperations()
    ensures Operates("RTM_NEWROUTE", 24) && Operates("RTM_DELROUTE", 25) && Operates("RTM_GETROUTE", 26)
  {
    hide NameOf, Lower, Operates;
    Operation("RTM_NEWROUTE", 24, "newRoute");
    Operation("RTM_DELROUTE", 25, "delRoute");
    Operation("RTM_GETROUTE", 26, "getRoute");
  }

  lemma NeighOperations()
    ensures Operates("RTM_NEWNEIGH", 28) && Operates("RTM_DELNEIGH", 29) && Operates("RTM_GETNEIGH", 30)
  {
    hide NameOf, Lower, Operates;
    Operation("RTM_NEWNEIGH", 28, "newNeighbor");
    Operation("RTM_DELNEIGH", 29, "delNeighbor");
    Operation("RTM_GETNEIGH", 30, "getNeighbor");
  }

  /** What a type's number is read as: its template and its attribute names go by the name of its constant. */
  lemma FamilyByName(k: nat)
    requires k < |MESSAGE_TYPES|
    ensures var (constant, typ) := MESSAGE_TYPES[k];
      && |constant| >= 7
      && Family(typ) ==
           if constant == "RTM_SETLINK" then None
           else if constant[7..] == "LINK" then Some((IFINFOMSG, LINK_NAMES))
           else if constant[7..] == "ADDR" then Some((IFADDRMSG, ADDR_NAMES))
           else if constant[7..] == "ROUTE" then Some((RTMSG, ROUTE_NAMES))
           else Some((NDMSG, NEIGH_NAMES))
  {
    hide LINK_NAMES, ADDR_NAMES, ROUTE_NAMES, NEIGH_NAMES, IFINFOMSG, IFADDRMSG, RTMSG, NDMSG;
    if k < 4 {
    } else if k < 7 {
      assert MESSAGE_TYPES[k].0[7..][0] == 'A';
    } else if k < 10 {
      assert MESSAGE_TYPES[k].0[7..][0] == 'R';
    } else {
      assert MESSAGE_TYPES[k].0[7..][0] == 'N';
    }
  }

  /** No other type is read at all. */
  lemma OnlyThese(typ: nat)
    ensures Family(typ).Some? ==> exists k :: 0 <= k < |MESSAGE_TYPES| && MESSAGE_TYPES[k].1 == typ
  {
    if Family(typ).Some? {
      var k := if typ < 23 then typ - 16 else if typ < 27 then typ - 17 else typ - 18;
      assert MESSAGE_TYPES[k].1 == typ;
    }
  }

  /** The parser gives the empty object exactly for a buffer that is no single whole message of a supported type. */
  lemma NothingExactly(data: seq<Byte>)
    ensures Parse(data).Nothing? <==> |data| < 16 || Read32(data, 0) != |data| || Family(Read16(data, 4)).None?
  {
    hide Read32, Read16, ParseFrom, UnpackAll, LINK_NAMES, ADDR_NAMES, ROUTE_NAMES, NEIGH_NAMES;
    if |data| >= 16 && Family(Read16(data, 4)).Some? { FamilyBounds(Read16(data, 4)); }
  }

  // ----- templates -----

  lemma {:induction false} SizeStep(items: seq<Item>, k: nat)
    requires k < |items|
    ensures SizeOf(items[..k + 1]) == SizeOf(items[..k]) + UnitSize(items[k].kind)
  {
    if k > 0 {
      SizeStep(items[1..], k - 1);
      assert items[..k + 1][1..] == items[1..][..k] && items[..k][1..] == items[1..][..k - 1];
    }
  }

  /** An integer of one, two or four bytes, in the range of its type, is in the bytes at a place. */
  predicate FieldIn(bs: seq<Byte>, at: nat, kind: Kind, v: int) {
    && kind.Int? && at + kind.len <= |bs|
    && (kind == Int(1, false) && 0 <= v < 0x100 ==> bs[at] == v)
    && (kind == Int(2, false) && 0 <= v < 0x1_0000 ==> Read16(bs, at) == v)
    && (kind == Int(4, false) && 0 <= v < 0x1_0000_0000 ==> Read32(bs, at) == v)
    && (kind == Int(4, true) && -0x8000_0000 <= v < 0x8000_0000 ==> Read32(bs, at) == if v < 0 then v + 0x1_0000_0000 else v)
  }

  /** A field of one, two or four bytes is read where the fields before it end. */
  lemma FieldPlace(items: seq<Item>, fields: seq<int>, k: nat)
    requires Plain(items) && |items| == |fields| && k < |items|
    ensures FieldIn(Packed(items, fields), SizeOf(items[..k]), items[k].kind, fields[k])
  {
    var at, bs, kind, v := SizeOf(items[..k]), Packed(items, fields), items[k].kind, fields[k];
    var own := IntBytes(false, kind, v);
    PackedFrom(items, fields, k);
    PackedTail(items, fields, k);
    if kind == Int(1, false) && 0 <= v < 0x100 { ByteExactly(false, false, v); }
    if kind == Int(2, false) && 0 <= v < 0x1_0000 { ShortExactly(false, false, v); }
    if kind == Int(4, false) && 0 <= v < 0x1_0000_0000 { LongExactly(false, false, v); }
    if kind == Int(4, true) && -0x8000_0000 <= v < 0x8000_0000 { LongExactly(false, true, v); }
    hide IntBytes, BytesInt, Packed, SizeOf, Read16, Read32, Plain;
    ReadAt(bs, at, own, Packed(items[k + 1..], fields[k + 1..]));
  }

  lemma ReadAt(bs: seq<Byte>, at: nat, own: seq<Byte>, rest: seq<Byte>)
    requires at <= |bs| && bs[at..] == own + rest
    ensures at + |own| <= |bs| && forall i :: 0 <= i < |own| ==> bs[at + i] == own[i]
    ensures |own| == 2 ==> var a: int, b: int := own[0], own[1]; Read16(bs, at) == a + 0x100 * b
    ensures |own| == 4 ==>
      var a: int, b: int, c: int, d: int := own[0], own[1], own[2], own[3];
      Read32(bs, at) == a + 0x100 * b + 0x1_0000 * c + 0x100_0000 * d
  {
    assert forall i :: 0 <= i < |own| ==> bs[at + i] == bs[at..][i];
    assert |own| >= 1 ==> bs[at + 0] == own[0];
    assert |own| >= 2 ==> bs[at + 1] == own[1];
    assert |own| == 4 ==> bs[at + 2] == own[2] && bs[at + 3] == own[3];
  }

  lemma Sized(items: seq<Item>, fields: seq<int>)
    requires Plain(items) && |items| == |fields|
    ensures SizeOf(items[..0]) == 0 && |Packed(items, fields)| == SizeOf(items[..|items|])
  {
    PlainRoundTrip(items, fields, SizeOf(items), []);
    assert items[..|items|] == items;
    hide Packed, Plain;
  }

  /** ifinfomsg: family, padding, device type, index, flags and change mask */
  lemma LinkTemplate(family: nat, pad: nat, kind: nat, index: int, flags: nat, change: nat)
    requires family < 0x100 && pad < 0x100 && kind < 0x1_0000 && -0x8000_0000 <= index < 0x8000_0000
    requires flags < 0x1_0000_0000 && change < 0x1_0000_0000
    ensures var bs := Packed(IFINFOMSG, [family, pad, kind, index, flags, change]);
      && |bs| == 16 && bs[0] == family && bs[1] == pad && Read16(bs, 2) == kind
      && Read32(bs, 4) == (if index < 0 then index + 0x1_0000_0000 else index)
      && Read32(bs, 8) == flags && Read32(bs, 12) == change
  {
    var fields := [family, pad, kind, index, flags, change];
    Sized(IFINFOMSG, fields);
    SizeStep(IFINFOMSG, 0);
    SizeStep(IFINFOMSG, 1);
    SizeStep(IFINFOMSG, 2);
    SizeStep(IFINFOMSG, 3);
    SizeStep(IFINFOMSG, 4);
    SizeStep(IFINFOMSG, 5);
    FieldPlace(IFINFOMSG, fields, 0);
    FieldPlace(IFINFOMSG, fields, 1);
    FieldPlace(IFINFOMSG, fields, 2);
    FieldPlace(IFINFOMSG, fields, 3);
    FieldPlace(IFINFOMSG, fields, 4);
    FieldPlace(IFINFOMSG, fields, 5);
    hide Packed, SizeOf, Read16, Read32, Plain;
  }

  /** ifaddrmsg: family, prefix length, flags, scope and index */
  lemma AddrTemplate(family: nat, prefix: nat, flags: nat, scope: nat, index: nat)
    requires family < 0x100 && prefix < 0x100 && flags < 0x100 && scope < 0x100 && index < 0x1_0000_0000
    ensures var bs := Packed(IFADDRMSG, [family, prefix, flags, scope, index]);
      |bs| == 8 && bs[..4] == [family, prefix, flags, scope] && Read32(bs, 4) == index
  {
    var fields := [family, prefix, flags, scope, index];
    Sized(IFADDRMSG, fields);
    SizeStep(IFADDRMSG, 0);
    SizeStep(IFADDRMSG, 1);
    SizeStep(IFADDRMSG, 2);
    SizeStep(IFADDRMSG, 3);
    SizeStep(IFADDRMSG, 4);
    FieldPlace(IFADDRMSG, fields, 0);
    FieldPlace(IFADDRMSG, fields, 1);
    FieldPlace(IFADDRMSG, fields, 2);
    FieldPlace(IFADDRMSG, fields, 3);
    FieldPlace(IFADDRMSG, fields, 4);
    hide Packed, SizeOf, Read16, Read32, Plain;
  }

  /** rtmsg: eight bytes, in the order of their names, and the flags */
  lemma RouteTemplate(family: nat, dst: nat, src: nat, tos: nat, table: nat, protocol: nat, scope: nat, kind: nat, flags: nat)
    requires family < 0x100 && dst < 0x100 && src < 0x100 && tos < 0x100 && table < 0x100 && protocol < 0x100
    requires scope < 0x100 && kind < 0x100 && flags < 0x1_0000_0000
    ensures var bs := Packed(RTMSG, [family, dst, src, tos, table, protocol, scope, kind, flags]);
      |bs| == 12 && bs[..8] == [family, dst, src, tos, table, protocol, scope, kind] && Read32(bs, 8) == flags
  {
    var fields := [family, dst, src, tos, table, protocol, scope, kind, flags];
    Sized(RTMSG, fields);
    SizeStep(RTMSG, 0);
    SizeStep(RTMSG, 1);
    SizeStep(RTMSG, 2);
    SizeStep(RTMSG, 3);
    SizeStep(RTMSG, 4);
    SizeStep(RTMSG, 5);
    SizeStep(RTMSG, 6);
    SizeStep(RTMSG, 7);
    SizeStep(RTMSG, 8);
    FieldPlace(RTMSG, fields, 0);
    FieldPlace(RTMSG, fields, 1);
    FieldPlace(RTMSG, fields, 2);
    FieldPlace(RTMSG, fields, 3);
    FieldPlace(RTMSG, fields, 4);
    FieldPlace(RTMSG, fields, 5);
    FieldPlace(RTMSG, fields, 6);
    FieldPlace(RTMSG, fields, 7);
    FieldPlace(RTMSG, fields, 8);
    hide Packed, SizeOf, Read16, Read32, Plain;
  }

  /** ndmsg: family, padding of one byte and of two, index, state, flags and type */
  lemma NeighTemplate(family: nat, pad1: nat, pad2: nat, index: nat, state: nat, flags: nat, kind: nat)
    requires family < 0x100 && pad1 < 0x100 && pad2 < 0x1_0000 && index < 0x1_0000_0000 && state < 0x1_0000 && flags < 0x100 && kind < 0x100
    ensures var bs := Packed(NDMSG, [family, pad1, pad2, index, state, flags, kind]);
      && |bs| == 12 && bs[0] == family && bs[1] == pad1 && Read16(bs, 2) == pad2 && Read32(bs, 4) == index
      && Read16(bs, 8) == state && bs[10] == flags && bs[11] == kind
  {
    var fields := [family, pad1, pad2, index, state, flags, kind];
    Sized(NDMSG, fields);
    SizeStep(NDMSG, 0);
    SizeStep(NDMSG, 1);
    SizeStep(NDMSG, 2);
    SizeStep(NDMSG, 3);
    SizeStep(NDMSG, 4);
    SizeStep(NDMSG, 5);
    SizeStep(NDMSG, 6);
    FieldPlace(NDMSG, fields, 0);
    FieldPlace(NDMSG, fields, 1);
    FieldPlace(NDMSG, fields, 2);
    FieldPlace(NDMSG, fields, 3);
    FieldPlace(NDMSG, fields, 4);
    FieldPlace(NDMSG, fields, 5);
    FieldPlace(NDMSG, fields, 6);
    hide Packed, SizeOf, Read16, Read32, Plain;
  }
}
