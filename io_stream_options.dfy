// The stream options of IOstreamOption.C: the words a case dictionary may
// use for the stream format, compression, mode and data destination, and
// the name a format is printed with.
module IOstreamOptions {
  import opened Wrappers

  /** streamFormat; COHERENT is the slice-based format of this repository. */
  datatype StreamFormat = ASCII | BINARY | COHERENT

  datatype CompressionType = UNCOMPRESSED | COMPRESSED

  /** streamMode: write synchronously or defer to the storage engine. */
  datatype StreamMode = SYNC | DEFERRED

  /** dataDestination: data goes to the time directory or the case. */
  datatype DataDestination = TIME | CASE

  /** formatEnum: an unknown word warns and gives ASCII. */
  function FormatEnum(format: string): (r: StreamFormat)
    ensures r == BINARY <==> format == "binary"
    ensures r == COHERENT <==> format == "coherent"
    ensures r == ASCII <==> format != "binary" && format != "coherent"
  {
    if format == "ascii" then ASCII
    else if format == "binary" then BINARY
    else if format == "coherent" then COHERENT
    else ASCII
  }

  /** operator<<(streamFormat): the name a format is written with. */
  function FormatName(sf: StreamFormat): (r: string)
    ensures |r| > 0
  {
    match sf
    case ASCII => "ascii"
    case BINARY => "binary"
    case COHERENT => "coherent"
  }

  /** Every format reads back from its printed name. */
  lemma FormatNameRoundTrip(sf: StreamFormat)
    ensures FormatEnum(FormatName(sf)) == sf
  {
  }

  /** Distinct formats print differently. */
  lemma FormatNameInjective(a: StreamFormat, b: StreamFormat)
    requires FormatName(a) == FormatName(b)
    ensures a == b
  {
    FormatNameRoundTrip(a);
    FormatNameRoundTrip(b);
  }

  /** compressionEnum. The word is first tried as a Switch (on/off, yes/no,
      ...); the Switch's verdict, None when it does not recognise the word,
      is `switchValue` (the Switch class is not part of this model). Then
      "uncompressed" and "compressed" are recognised; anything else warns
      and gives UNCOMPRESSED. */
  function CompressionEnum(compression: string, switchValue: Option<bool>): (r: CompressionType)
    ensures switchValue.Some? ==> (r == COMPRESSED <==> switchValue.value)
    ensures switchValue.None? ==> (r == COMPRESSED <==> compression == "compressed")
  {
    if switchValue.Some? then (if switchValue.value then COMPRESSED else UNCOMPRESSED)
    else if compression == "uncompressed" then UNCOMPRESSED
    else if compression == "compressed" then COMPRESSED
    else UNCOMPRESSED
  }

  /** modeEnum: an unknown word warns and gives SYNC. */
  function ModeEnum(mode: string): (r: StreamMode)
    ensures r == DEFERRED <==> mode == "deferred"
  {
    if mode == "sync" then SYNC
    else if mode == "deferred" then DEFERRED
    else SYNC
  }

  /** destinationEnum: an unknown word warns and gives TIME. */
  function DestinationEnum(destination: string): (r: DataDestination)
    ensures r == CASE <==> destination == "case"
  {
    if destination == "time" then TIME
    else if destination == "case" then CASE
    else TIME
  }
}
