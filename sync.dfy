/**
  Two helpers of `skopeo sync` whose behaviour its unit tests fix:
  `getSubPath`, which strips the registry part of a source path, and the
  decoding of a registry's `tls-verify` YAML field into the tri-state
  `skip` flag of `tlsVerifyConfig`.
*/
module Sync {
  import opened Wrappers
  import opened Strings

  /**
    getSubPath: the path below `registry`. With no registry a path loses one
    trailing '/'; otherwise the `registry + "/"` prefix is removed, if present.
  */
  function GetSubPath(fullPath: string, registry: string): (r: string)
    ensures |r| <= |fullPath|
    ensures registry == "" ==> fullPath == r || fullPath == r + "/"
    ensures registry != "" && HasPrefix(fullPath, registry + "/") ==> fullPath == registry + "/" + r
    ensures registry != "" && !HasPrefix(fullPath, registry + "/") ==> r == fullPath
  {
    if registry == "" then TrimSuffix(fullPath, "/") else TrimPrefix(fullPath, registry + "/")
  }

  /** types.OptionalBool: unset, or set to true or to false. */
  datatype OptionalBool = OptionalBoolUndefined | OptionalBoolTrue | OptionalBoolFalse

  /** types.NewOptionalBool: the set value `b`. */
  function NewOptionalBool(b: bool): OptionalBool {
    if b then OptionalBoolTrue else OptionalBoolFalse
  }

  /** A YAML scalar as the decoder sees it: a boolean, or anything else (its text as written). */
  datatype Scalar = BoolScalar(b: bool) | OtherScalar(text: string)

  datatype TLSVerifyConfig = TLSVerifyConfig(skip: OptionalBool)

  datatype DecodeResult = Decoded(config: TLSVerifyConfig) | DecodeError

  /**
    Decoding the `tls-verify` field. An absent field leaves the zero value
    (skip undefined); a boolean `verify` gives skip = !verify; any other
    scalar is an error.
  */
  function DecodeTLSVerify(field: Option<Scalar>): (r: DecodeResult)
    ensures r.Decoded? ==> (r.config.skip == OptionalBoolUndefined <==> field.None?)
    ensures r.DecodeError? ==> field.Some? && field.value.OtherScalar?
  {
    match field
    case None => Decoded(TLSVerifyConfig(OptionalBoolUndefined))
    case Some(BoolScalar(verify)) => Decoded(TLSVerifyConfig(NewOptionalBool(!verify)))
    case Some(OtherScalar(_)) => DecodeError
  }

  /** The field that describes a configuration: no field when skip is undefined, else tls-verify = !skip. */
  function EncodeTLSVerify(config: TLSVerifyConfig): Option<Scalar> {
    match config.skip
    case OptionalBoolUndefined => None
    case OptionalBoolTrue => Some(BoolScalar(false))
    case OptionalBoolFalse => Some(BoolScalar(true))
  }

  // Properties of getSubPath

  /** Below a registry, the path is what follows `registry + "/"`. */
  lemma SubPathBelowRegistry(registry: string, rest: string)
    requires registry != ""
    ensures GetSubPath(registry + "/" + rest, registry) == rest
  {
    assert (registry + "/" + rest)[..|registry + "/"|] == registry + "/";
  }

  /** The registry prefix and the sub-path put back together give the full path. */
  lemma SubPathRejoins(fullPath: string, registry: string)
    requires registry != "" && HasPrefix(fullPath, registry + "/")
    ensures registry + "/" + GetSubPath(fullPath, registry) == fullPath
  {
  }

  /** A path outside the registry is returned unchanged. */
  lemma SubPathOutsideRegistry(fullPath: string, registry: string)
    requires registry != "" && !HasPrefix(fullPath, registry + "/")
    ensures GetSubPath(fullPath, registry) == fullPath
  {
  }

  /** With no registry, one trailing '/' is removed. */
  lemma TrailingSlashRemoved(path: string)
    ensures GetSubPath(path + "/", "") == path
  {
    assert (path + "/")[|path + "/"| - 1..] == "/";
  }

  /** With no registry, a path without a trailing '/' is returned unchanged. */
  lemma NoTrailingSlashKept(path: string)
    requires !HasSuffix(path, "/")
    ensures GetSubPath(path, "") == path
  {
  }

  /** The getSubPath unit test: a path below a registry host. */
  lemma SubPathTableRegistry()
    ensures GetSubPath("registry.fedoraproject.org/f38/flatpak-runtime:f38", "registry.fedoraproject.org")
      == "f38/flatpak-runtime:f38"
  {
    var registry, rest := "registry.fedoraproject.org", "f38/flatpak-runtime:f38";
    assert "registry.fedoraproject.org/f38/flatpak-runtime:f38" == registry + "/" + rest;
    SubPathBelowRegistry(registry, rest);
  }

  /** The getSubPath unit test: a path below a registry with a sub-path. */
  lemma SubPathTableRegistrySubpath()
    ensures GetSubPath("registry.fedoraproject.org/f38/flatpak-runtime:f38", "registry.fedoraproject.org/f38")
      == "flatpak-runtime:f38"
  {
    var registry, rest := "registry.fedoraproject.org/f38", "flatpak-runtime:f38";
    assert "registry.fedoraproject.org/f38/flatpak-runtime:f38" == registry + "/" + rest;
    SubPathBelowRegistry(registry, rest);
  }

  /** The getSubPath unit test: no registry, with and without a trailing '/'. */
  lemma SubPathTableNoRegistry()
    ensures GetSubPath("/media/usb/", "") == "/media/usb"
    ensures GetSubPath("flatpak-runtime:f38", "") == "flatpak-runtime:f38"
  {
    assert "/media/usb/" == "/media/usb" + "/";
    TrailingSlashRemoved("/media/usb");
    assert "flatpak-runtime:f38"[|"flatpak-runtime:f38"| - 1..] == "8";
  }

  // Properties of the tls-verify mapping

  /** The cases of the tls-verify unit test: true, false, no value, and a string that is not a boolean. */
  lemma TLSVerifyTable()
    ensures DecodeTLSVerify(Some(BoolScalar(true))) == Decoded(TLSVerifyConfig(OptionalBoolFalse))
    ensures DecodeTLSVerify(Some(BoolScalar(false))) == Decoded(TLSVerifyConfig(OptionalBoolTrue))
    ensures DecodeTLSVerify(None) == Decoded(TLSVerifyConfig(OptionalBoolUndefined))
    ensures DecodeTLSVerify(Some(OtherScalar("not a valid bool"))) == DecodeError
  {
  }

  /** Decoding fails exactly on a value that is not a boolean. */
  lemma DecodeErrorIff(field: Option<Scalar>)
    ensures DecodeTLSVerify(field) == DecodeError <==> field.Some? && field.value.OtherScalar?
  {
  }

  /** A decoded boolean always sets skip, and sets it to true exactly when verification is turned off. */
  lemma SkipIsNotVerify(verify: bool)
    ensures DecodeTLSVerify(Some(BoolScalar(verify))).config.skip != OptionalBoolUndefined
    ensures DecodeTLSVerify(Some(BoolScalar(verify))).config.skip == OptionalBoolTrue <==> !verify
  {
  }

  /** Every configuration is decoded from the field that describes it. */
  lemma DecodeEncode(config: TLSVerifyConfig)
    ensures DecodeTLSVerify(EncodeTLSVerify(config)) == Decoded(config)
  {
  }

  /** A field that decodes is the one that describes its configuration. */
  lemma EncodeDecode(field: Option<Scalar>)
    requires DecodeTLSVerify(field).Decoded?
    ensures EncodeTLSVerify(DecodeTLSVerify(field).config) == field
  {
  }
}
