/** The fixed table from catalog type tags to TypeScript types, and the
    lookup with identity fallback used for every parameter and result type. */
module NativeTypes {

  /** `transformedNativeTypes`, entry by entry and in source order. The tag
      `FireId` is listed twice, both times with the value `number`; in a map
      display the later entry wins, as it does in a JavaScript object
      literal. */
  const TransformedNativeTypes: map<string, string> := map[
    "Hash" := "number",
    "int" := "number",
    "float" := "number",
    "FireId" := "number",
    "Any" := "any",
    "ScrHandle" := "number",
    "Interior" := "number",
    "Cam" := "number",
    "FireId" := "number",
    "Pickup" := "number",
    "Ped" := "Ped | Player | number",
    "Player" := "Player | number",
    "Vehicle" := "Vehicle | number",
    "Entity" := "Entity | number"
  ]

  /** `transformNativeType`: `table[type] || type`. A mapped tag whose value
      were the empty string would also fall back to the tag itself. */
  function TransformNativeType(t: string): (r: string)
    ensures r == t || r in TransformedNativeTypes.Values
  {
    if t in TransformedNativeTypes && TransformedNativeTypes[t] != "" then TransformedNativeTypes[t]
    else t
  }

  /** The table's tags are exactly the thirteen listed in the source; both
      `FireId` entries agree, so the duplicate changes nothing. */
  lemma TableShape()
    ensures TransformedNativeTypes.Keys == {"Hash", "int", "float", "FireId", "Any", "ScrHandle",
      "Interior", "Cam", "Pickup", "Ped", "Player", "Vehicle", "Entity"}
    ensures TransformedNativeTypes["FireId"] == "number"
  {
  }

  /** Resolution returns the table's value for a mapped tag and the tag
      itself for any other, and never returns an empty string for a
      non-empty tag. */
  lemma ResolveSpec(t: string)
    ensures t in TransformedNativeTypes ==> TransformNativeType(t) == TransformedNativeTypes[t]
    ensures t !in TransformedNativeTypes ==> TransformNativeType(t) == t
    ensures t != "" ==> TransformNativeType(t) != ""
  {
    assert forall k | k in TransformedNativeTypes :: TransformedNativeTypes[k] != "";
  }

  /** No value of the table is itself a tag of the table, so resolving a
      resolved type changes nothing. */
  lemma ResolveIdempotent(t: string)
    ensures TransformNativeType(TransformNativeType(t)) == TransformNativeType(t)
  {
    if t in TransformedNativeTypes {
      ValueUnmapped(t);
    }
  }

  /** A table value is not a tag of the table. */
  lemma ValueUnmapped(k: string)
    requires k in TransformedNativeTypes
    ensures TransformedNativeTypes[k] !in TransformedNativeTypes
  {
    var values := {"number", "any", "Ped | Player | number", "Player | number",
      "Vehicle | number", "Entity | number"};
    assert TransformedNativeTypes[k] in values;
  }

  /** Resolution keeps strings free of a character that no table value
      holds (a comma, a bracket, a line break). */
  lemma ResolveKeepsFree(t: string, c: char)
    requires c !in t
    requires c !in "number" && c !in "any" && c !in "Ped | Player | number"
    requires c !in "Player | number" && c !in "Vehicle | number" && c !in "Entity | number"
    ensures c !in TransformNativeType(t)
  {
  }
}
