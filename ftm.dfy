/** The parts of the followthemoney library that the entity model relies on,
    kept abstract: a schema is a set of typed property names with a
    conformance check, a registry resolves schema names, checks entity ids and
    cleans raw values, and a collection's namespace signs ids and re-keys
    property values. None of their algorithms is modelled. */
module Ftm {

  /** The properties of an entity proxy: property name to its values. A name
      that is absent has no values. */
  type Properties = map<string, seq<string>>

  /** The type of a schema property; only the checksum type matters here. */
  datatype PropType = Checksum | OtherType(name: string)

  /** A schema: its name, its properties with their types, and the outcome of
      `schema.validate(data)` on raw property data. */
  datatype Schema = Schema(
    name: string,
    properties: map<string, PropType>,
    conforms: Properties -> bool)

  /** The schema registry: `model.get(name)`, `registry.entity.validate(id)`
      and the per-property cleaning of raw values done when a proxy is built. */
  datatype Registry = Registry(
    schemata: map<string, Schema>,
    validEntityId: string -> bool,
    clean: (string, seq<string>) -> seq<string>)

  /** A collection's namespace: `ns.sign(id)` and `ns.apply(proxy)`, the
      latter seen through its effect on the proxy's properties (it keeps the
      proxy's schema). */
  datatype Namespace = Namespace(
    sign: string -> string,
    apply: Properties -> Properties)

  predicate IsChecksum(s: Schema, p: string)
  {
    p in s.properties && s.properties[p] == Checksum
  }

  /** `proxy.get(prop)`: the values of a property, empty when it is unset. */
  function Get(props: Properties, p: string): seq<string>
  {
    if p in props then props[p] else []
  }

  /** `proxy.set(prop, values)`: replaces the values of one property; setting
      no values leaves the property unset. */
  function Set(props: Properties, p: string, values: seq<string>): (r: Properties)
    ensures forall q :: Get(r, q) == if q == p then values else Get(props, q)
  {
    if values == [] then props - {p} else props[p := values]
  }

  /** The properties of `model.get_proxy(data, cleaned=False)`: names outside
      the schema are dropped, the others are cleaned, and a property whose
      values all clean away is unset. */
  function ProxyProperties(reg: Registry, s: Schema, raw: Properties): (r: Properties)
    ensures forall p ::
              Get(r, p) == if p in s.properties && p in raw then reg.clean(p, raw[p]) else []
  {
    map p | p in raw && p in s.properties && reg.clean(p, raw[p]) != [] :: reg.clean(p, raw[p])
  }

  /** The properties of a proxy rebuilt from already-clean stored data under
      schema `s`: names outside the schema are dropped, values are kept. */
  function StoredProxyProperties(s: Schema, data: Properties): (r: Properties)
    ensures forall p :: Get(r, p) == if p in s.properties then Get(data, p) else []
  {
    map p | p in data && p in s.properties :: data[p]
  }

  /** Signing an already signed id changes nothing. */
  ghost predicate Idempotent(f: string -> string)
  {
    forall x :: f(f(x)) == f(x)
  }
}
