/**
 * Entry classification: the `PSP_DIRECTORY_ENTRY_TYPE` registry and the
 * total naming rule built on it. A registered code is named by its
 * registry name; any other code by "Unknown_" followed by `hex(code)`.
 */
module EntryTypes {
  import opened Wrappers
  import opened LittleEndian
  import Hex

  /** The codes the registry names. */
  const RegisteredCodes: set<u32> :=
    {0x00, 0x01, 0x02, 0x03, 0x04, 0x05, 0x06, 0x07, 0x08, 0x09, 0x0A, 0x0B, 0x0C, 0x0D,
     0x10, 0x12, 0x1A, 0x5F}

  const UnknownPrefix: string := "Unknown_"

  /** The registry: `PSP_DIRECTORY_ENTRY_TYPE(code).name`, or `None` where the enum raises. */
  function RegistryName(code: u32): (name: Option<string>)
    ensures name.Some? <==> code in RegisteredCodes
  {
    match code
    case 0x00 => Some("AMD_PUBLIC_KEY")
    case 0x01 => Some("PSP_FW_BOOT_LOADER")
    case 0x02 => Some("PSP_FW_TRUSTED_OS")
    case 0x03 => Some("PSP_FW_RECOVERY_BOOT_LOADER")
    case 0x04 => Some("PSP_NV_DATA")
    case 0x05 => Some("BIOS_PUBLIC_KEY")
    case 0x06 => Some("BIOS_RTM_FIRMWARE")
    case 0x07 => Some("BIOS_RTM_SIGNATURE")
    case 0x08 => Some("SMU_OFFCHIP_FW")
    case 0x09 => Some("AMD_SEC_DBG_PUBLIC_KEY")
    case 0x0A => Some("OEM_PSP_FW_PUBLIC_KEY")
    case 0x0B => Some("AMD_SOFT_FUSE_CHAIN_01")
    case 0x0C => Some("PSP_BOOT_TIME_TRUSTLETS")
    case 0x0D => Some("PSP_BOOT_TIME_TRUSTLETS_KEY")
    case 0x10 => Some("PSP_AGESA_RESUME_FW")
    case 0x12 => Some("SMU_OFF_CHIP_FW_2")
    case 0x1A => Some("PSP_S3_NV_DATA")
    case 0x5F => Some("AMD_SCS_BINARY")
    case _ => None
  }

  /** The registry read backwards: the registered code, if any, that a name stands for. */
  ghost function RegistryCode(name: string): (code: Option<u32>)
  {
    if exists c: u32 :: c in RegisteredCodes && RegistryName(c) == Some(name) then
      var c: u32 :| c in RegisteredCodes && RegistryName(c) == Some(name);
      Some(c)
    else
      None
  }

  /** The segment type name of an entry: total, it never fails. */
  function TypeName(code: u32): string {
    match RegistryName(code)
    case Some(n) => n
    case None => UnknownPrefix + Hex.ToHex(code)
  }

  /** Recover the type code from a segment type name: the inverse of `TypeName`. */
  ghost function TypeCode(name: string): (code: Option<u32>)
  {
    var tag := UnknownPrefix + "0x";
    if |name| > |tag| && name[..|tag|] == tag
       && (forall i :: |tag| <= i < |name| ==> Hex.IsLowerHexDigit(name[i]))
    then
      var v := Hex.ParseDigits(name[|tag|..]);
      if v < 0x1_0000_0000 then Some(v) else None
    else
      RegistryCode(name)
  }

  /** The registry gives distinct codes distinct names. */
  lemma RegistryNamesDistinct(a: u32, b: u32)
    requires a in RegisteredCodes && b in RegisteredCodes && a != b
    ensures RegistryName(a) != RegistryName(b)
  {
  }

  /** Every registry name reads back as its own code. */
  lemma RegistryRoundTrip(code: u32)
    requires code in RegisteredCodes
    ensures RegistryCode(RegistryName(code).value) == Some(code)
  {
    var r := RegistryCode(RegistryName(code).value);
    assert r.Some?;
    if r.value != code {
      RegistryNamesDistinct(r.value, code);
    }
  }

  /** No registry name starts the way a fallback name does. */
  lemma RegistryNamesAreNotFallbacks(code: u32)
    requires code in RegisteredCodes
    ensures |RegistryName(code).value| > 0 && RegistryName(code).value[0] != UnknownPrefix[0]
  {
  }

  /** The type code can be read back from every name `TypeName` produces. */
  lemma TypeNameRoundTrip(code: u32)
    ensures TypeCode(TypeName(code)) == Some(code)
  {
    var name := TypeName(code);
    if code in RegisteredCodes {
      RegistryRoundTrip(code);
      RegistryNamesAreNotFallbacks(code);
      var tag := UnknownPrefix + "0x";
      assert name[0] != tag[0];
      assert !(|name| > |tag| && name[..|tag|] == tag);
    } else {
      var tag := UnknownPrefix + "0x";
      var digits := Hex.Digits(code);
      assert name == tag + digits;
      assert name[..|tag|] == tag && name[|tag|..] == digits;
      Hex.ParseDigitsOfDigits(code);
    }
  }

  /**
   * An unregistered code is named "Unknown_0x" followed by its lowercase
   * hexadecimal digits, without leading zeros, which read back as the code.
   */
  lemma FallbackNameForm(code: u32)
    requires code !in RegisteredCodes
    ensures var name := TypeName(code);
      && |name| > 10 && name[..10] == "Unknown_0x"
      && (forall i :: 10 <= i < |name| ==> Hex.IsLowerHexDigit(name[i]))
      && (name[10] == '0' <==> code == 0)
      && Hex.ParseDigits(name[10..]) == code
  {
    var name := TypeName(code);
    assert name[10..] == Hex.Digits(code);
    Hex.ParseDigitsOfDigits(code);
  }

  /**
   * Distinct type codes get distinct names; two entries share an output
   * file name only when they have the same type.
   */
  lemma TypeNameInjective(a: u32, b: u32)
    ensures TypeName(a) == TypeName(b) <==> a == b
  {
    TypeNameRoundTrip(a);
    TypeNameRoundTrip(b);
  }
}
