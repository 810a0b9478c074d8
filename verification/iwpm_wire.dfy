/** Packing and unpacking of port mapper messages. */
module IwpmWire {
  import opened IwpmTypes

  function FormMsg(p: MsgParms): WireMsg {
    var magic := (p.ipVer & 0x0F) | ((p.ver << 6) & 0xC0) | ((p.mt << 4) & 0x30);
    if p.mt == MT_REQ then
      WireMsg(magic, p.pmtime, p.mappedCpPort, p.apPort, p.cpPort, p.handle, p.cpIp, p.apIp, p.mappedCpIp)
    else
      WireMsg(magic, p.pmtime, 0, p.apPort, p.cpPort, p.handle, p.cpIp, p.apIp, 0)
  }

  function ParseMsg(m: WireMsg): Option<MsgParms> {
    var ipVer := m.magic & 0x0F;
    if ipVer != 4 && ipVer != 6 then None
    else
      var family := if ipVer == 4 then V4 else V6;
      var ver := (m.magic & 0xC0) >> 6;
      var mt := (m.magic & 0x30) >> 4;
      var port := if mt == MT_REQ then m.reserved else 0;
      var ip := if mt == MT_REQ then m.mappedCpIp else 0;
      Some(MsgParms(ipVer, family, m.apIp, m.apPort, m.cpIp, m.cpPort, ip, port, ver, mt, m.pmtime, m.handle))
  }

  /** Parameters as a daemon fills them in: the version field matches the family. */
  predicate Sendable(p: MsgParms) {
    ((p.ipVer == 4 && p.family == V4) || (p.ipVer == 6 && p.family == V6)) && p.ver < 4 && p.mt < 4
  }

  /** What of the parameters travels: only a request carries the mapped connecting address. */
  function OnWire(p: MsgParms): MsgParms {
    if p.mt == MT_REQ then p else p.(mappedCpIp := 0, mappedCpPort := 0)
  }

  lemma MagicRoundTrip(ipVer: bv8, ver: bv8, mt: bv8)
    requires ipVer < 16 && ver < 4 && mt < 4
    ensures var magic := (ipVer & 0x0F) | ((ver << 6) & 0xC0) | ((mt << 4) & 0x30);
            magic & 0x0F == ipVer && (magic & 0xC0) >> 6 == ver && (magic & 0x30) >> 4 == mt
  {
  }

  /** The first byte has the version in its upper two bits, then the type, then the version
      of IP; every other parameter has its own place, where a request puts the mapped
      connecting port into the reserved field. */
  lemma WireLayout(p: MsgParms)
    requires Sendable(p)
    ensures var m := FormMsg(p);
            && m.magic == 64 * p.ver + 16 * p.mt + p.ipVer && m.pmtime == p.pmtime && m.handle == p.handle
            && m.apPort == p.apPort && m.apIp == p.apIp && m.cpPort == p.cpPort && m.cpIp == p.cpIp
            && m.reserved == (if p.mt == MT_REQ then p.mappedCpPort else 0)
            && m.mappedCpIp == (if p.mt == MT_REQ then p.mappedCpIp else 0)
  {
    var i, v, t := p.ipVer, p.ver, p.mt;
    assert (i & 0x0F) | ((v << 6) & 0xC0) | ((t << 4) & 0x30) == 64 * v + 16 * t + i;
  }

  /** Parsing gives back exactly what was sent. */
  lemma ParseForm(p: MsgParms)
    requires Sendable(p)
    ensures ParseMsg(FormMsg(p)) == Some(OnWire(p))
  {
    MagicRoundTrip(p.ipVer, p.ver, p.mt);
  }

  /** Forming a parsed message reproduces it, unless it is no request and has a stray
      mapped address in it. */
  lemma FormParse(m: WireMsg)
    requires ParseMsg(m).Some?
    ensures Sendable(ParseMsg(m).value)
    ensures FormMsg(ParseMsg(m).value) == m <==>
            ParseMsg(m).value.mt == MT_REQ || (m.reserved == 0 && m.mappedCpIp == 0)
  {
    var x := m.magic;
    assert ((x & 0x0F) & 0x0F) | ((((x & 0xC0) >> 6) << 6) & 0xC0) | ((((x & 0x30) >> 4) << 4) & 0x30) == x;
  }
}
