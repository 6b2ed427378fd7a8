/** The feature-flag record of feature-forge and the kinds of flag it knows. */
module FeatureModel {
  import opened Wrappers

  /** 'ab-test' | 'release' | 'ops' | 'permission' */
  datatype FeatureType = AbTest | Release | Ops | Permission

  /** A field of an object payload: a string, or a value of any other kind. */
  datatype PayloadField = Text(s: string) | OtherValue

  /** A flag's payload: an object with named fields, or any non-object value. */
  datatype Payload = Record(fields: map<string, PayloadField>) | NonRecord

  /** A feature flag; `payload` is absent when the flag carries none. */
  datatype FeatureFlag = FeatureFlag(id: string, kind: FeatureType, enabled: bool, payload: Option<Payload>)
}
