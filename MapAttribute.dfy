/** The [Map] attribute: on a source property, it renames the property for the
    mapped copy and names the converter its value goes through. */
module Attributes {
  import opened ValueConverters

  /** `new MapAttribute(targetProperty, converterType)`. TargetProperty and
      ConverterType are get-only, so a datatype value (immutable) models the
      attribute instance; a property carries at most one of them, because the
      attribute does not allow multiple uses. */
  datatype MapAttribute = MapAttribute(targetProperty: string, converterType: ConverterKind)
}
