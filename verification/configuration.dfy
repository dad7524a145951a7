/** The part of the controller's key-value configuration that the event
    handlers read: the configured switches, each with its name and whether it is
    an ingress router (BFIR). */
module Configuration {

  datatype SwitchConfig = SwitchConfig(name: string, ingress: bool)

  /** The names of the configured switches, in configuration order. */
  function Names(cfg: seq<SwitchConfig>): (r: seq<string>)
    ensures |r| == |cfg| && forall i :: 0 <= i < |cfg| ==> r[i] == cfg[i].name
  {
    if cfg == [] then [] else [cfg[0].name] + Names(cfg[1..])
  }

  /** `for bfr in switches: if not bfr["ingress"]: continue`: the names of the
      ingress switches, in configuration order. */
  function IngressNames(cfg: seq<SwitchConfig>): (r: seq<string>)
    ensures forall n :: n in r <==> exists c :: c in cfg && c.ingress && c.name == n
    ensures |r| <= |cfg|
  {
    if cfg == [] then []
    else
      assert forall c :: c in cfg <==> c == cfg[0] || c in cfg[1..];
      (if cfg[0].ingress then [cfg[0].name] else []) + IngressNames(cfg[1..])
  }
}
