/**
 * One shadow copy as VssInfo holds it (Helpers.cs), and the way its VssNumber
 * is read out of the shadow copy's device path.
 */
module Snapshot {
  import opened Wrappers
  import opened Text
  import opened Clock

  /** The text that precedes the ordinal in a shadow copy's device path. */
  const Marker: string := "VolumeShadowCopy"

  /** The ways building a record can throw, in the order they are tried. */
  datatype ParseError =
    | BadCreationTime(raw: string)  // DateTimeOffset.Parse: FormatException
    | StartOutOfRange               // Substring: ArgumentOutOfRangeException
    | NumberFormat                  // int.Parse: FormatException
    | NumberOverflow                // int.Parse: OverflowException

  datatype VssInfo = VssInfo(
    createdOn: UtcTime,
    shadowCopyId: string,
    shadowCopyVolume: string,
    originatingMachine: string,
    servicingMachine: string,
    vssNumber: nat)

  /**
   * int.Parse(volume.Substring(volume.IndexOf(Marker) + 16)). When the marker
   * is missing IndexOf gives -1, so the text is read from index 15 on.
   */
  function VssNumberOf(volume: string): (r: Result<nat, ParseError>)
    ensures r.Success? ==> r.value <= Int32Max
    ensures r == Failure(StartOutOfRange) ==> IndexOf(volume, Marker) == -1 && |volume| < 15
    ensures r.Failure? ==> !r.error.BadCreationTime?
  {
    var start := IndexOf(volume, Marker) + |Marker|;
    if start > |volume| then Failure(StartOutOfRange)
    else
      match ParseInt32(volume[start..])
      case Success(n) => Success(n)
      case Failure(NotANumber) => Failure(NumberFormat)
      case Failure(Overflow) => Failure(NumberOverflow)
  }

  /**
   * When the first marker of the path ends where `rest` starts, the number
   * is `rest` read as decimal digits, and fails exactly when int.Parse would.
   */
  lemma NumberFollowsFirstMarker(prefix: string, rest: string)
    requires forall i :: 0 <= i < |prefix| ==> !OccursAt(prefix + Marker, i, Marker)
    ensures var r := VssNumberOf(prefix + Marker + rest);
      && (r.Success? <==> rest != [] && AllDigits(rest) && DigitsValue(rest) <= Int32Max)
      && (r.Success? ==> r.value == DigitsValue(rest))
      && (r == Failure(NumberOverflow) <==> rest != [] && AllDigits(rest) && DigitsValue(rest) > Int32Max)
  {
    var pm := prefix + Marker;
    var v := pm + rest;
    assert v[|prefix|..|prefix| + |Marker|] == Marker;
    assert OccursAt(v, |prefix|, Marker);
    forall i | 0 <= i < |prefix| ensures !OccursAt(v, i, Marker) {
      assert !OccursAt(pm, i, Marker);
      assert i + |Marker| <= |pm|;
      assert v[i..i + |Marker|] == pm[i..i + |Marker|];
    }
    assert IndexOf(v, Marker) == |prefix|;
    assert v[|prefix| + |Marker|..] == rest;
  }

  /** A device path ending in "VolumeShadowCopy" and the decimal text of n gives n. */
  lemma NumberOfDevicePath(prefix: string, n: nat)
    requires forall i :: 0 <= i < |prefix| ==> !OccursAt(prefix + Marker, i, Marker)
    requires n <= Int32Max
    ensures VssNumberOf(prefix + Marker + Decimal(n)) == Success(n)
  {
    NumberFollowsFirstMarker(prefix, Decimal(n));
  }

  /** A prefix without a 'V' cannot hold the start of the marker. */
  lemma NoMarkerBeforeEnd(prefix: string)
    requires 'V' !in prefix
    ensures forall i :: 0 <= i < |prefix| ==> !OccursAt(prefix + Marker, i, Marker)
  {
    forall i | 0 <= i < |prefix| ensures !OccursAt(prefix + Marker, i, Marker) {
      assert (prefix + Marker)[i] == prefix[i];
    }
  }

  /** The device path vssadmin prints for the 42nd shadow copy. */
  lemma NumberOfHarddiskPath(device: string, volume: string)
    requires device == "\\\\?\\GLOBALROOT\\Device\\Harddisk"
    requires volume == device + "VolumeShadowCopy42"
    ensures VssNumberOf(volume) == Success(42)
  {
    NoMarkerBeforeEnd(device);
    NumberOfDevicePath(device, 42);
    assert Decimal(42) == "42";
    assert device + Marker + "42" == volume;
  }

  /** A path without the marker is read from index 15, so a short one makes Substring throw. */
  lemma NumberWithoutMarker(volume: string)
    requires forall i :: !OccursAt(volume, i, Marker)
    ensures |volume| < 15 ==> VssNumberOf(volume) == Failure(StartOutOfRange)
    ensures |volume| >= 15 ==>
              (VssNumberOf(volume).Success? <==>
                 |volume| > 15 && AllDigits(volume[15..]) && DigitsValue(volume[15..]) <= Int32Max)
  {
    assert IndexOf(volume, Marker) == -1;
  }

  /** An empty "Shadow Copy Volume" field cannot give a number. */
  lemma EmptyVolumeHasNoNumber()
    ensures VssNumberOf("") == Failure(StartOutOfRange)
  {
    NumberWithoutMarker("");
  }

  /**
   * The VssInfo constructor: it keeps the five values it is given, and either
   * derives the number from the volume path or throws what VssNumberOf reports.
   */
  function NewVssInfo(createdOn: UtcTime, shadowCopyId: string, shadowCopyVolume: string,
                      originatingMachine: string, servicingMachine: string): (r: Result<VssInfo, ParseError>)
    ensures r.Success? <==> VssNumberOf(shadowCopyVolume).Success?
    ensures r.Success? ==> r.value == VssInfo(createdOn, shadowCopyId, shadowCopyVolume,
                                              originatingMachine, servicingMachine,
                                              VssNumberOf(shadowCopyVolume).value)
    ensures r.Failure? ==> r.error == VssNumberOf(shadowCopyVolume).error
  {
    match VssNumberOf(shadowCopyVolume)
    case Success(n) =>
      Success(VssInfo(createdOn, shadowCopyId, shadowCopyVolume, originatingMachine, servicingMachine, n))
    case Failure(e) => Failure(e)
  }
}
