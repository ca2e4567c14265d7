/**
 * `encode_distorted_sample`: the choice between the NVENC and the x264
 * encoder, and the ffmpeg argument list that encodes the reference sample
 * at a given CRF.
 */
module EncodeArgs {
  import opened Wrappers
  import opened Decimal
  import opened PyString

  datatype Encoder = Libx264 | H264Nvenc

  function EncoderName(e: Encoder): string {
    match e
    case Libx264 => "libx264"
    case H264Nvenc => "h264_nvenc"
  }

  /**
   * The encoder picked from the output of `ffmpeg -hide_banner -encoders`;
   * `None` stands for a probe that failed, which falls back to x264.
   */
  function ChooseEncoder(listing: Option<string>): (e: Encoder)
    ensures e == H264Nvenc <==> listing.Some? && exists i: nat :: OccursAt(listing.value, "h264_nvenc", i)
  {
    if listing.Some? && Contains(listing.value, "h264_nvenc") then H264Nvenc else Libx264
  }

  /** NVENC takes a constant quantiser, x264 a constant rate factor. */
  function QualityFlag(e: Encoder): string {
    match e
    case Libx264 => "-crf"
    case H264Nvenc => "-qp"
  }

  function Preset(e: Encoder): string {
    match e
    case Libx264 => "medium"
    case H264Nvenc => "hq"
  }

  /** The argument list handed to `subprocess.run`. */
  function EncodeCommand(reference: string, crf: int, output: string, e: Encoder): seq<string> {
    ["ffmpeg", "-v", "error", "-i", reference, "-c:v", EncoderName(e), QualityFlag(e), IntText(crf),
     "-preset", Preset(e), "-y", output]
  }

  /** What an encode command asks for. */
  datatype EncodeJob = EncodeJob(reference: string, crf: int, output: string, encoder: Encoder)

  function EncoderNamed(name: string): Option<Encoder> {
    if name == "libx264" then Some(Libx264)
    else if name == "h264_nvenc" then Some(H264Nvenc)
    else None
  }

  /** Reads an argument list of the shape EncodeCommand writes back into the job it describes. */
  function ReadEncodeCommand(args: seq<string>): Option<EncodeJob> {
    if |args| != 13 || args[..4] != ["ffmpeg", "-v", "error", "-i"] || args[5] != "-c:v"
      || args[9] != "-preset" || args[11] != "-y" then None
    else
      match EncoderNamed(args[6])
      case None => None
      case Some(e) =>
        if args[7] != QualityFlag(e) || args[10] != Preset(e) then None
        else
          match ParseInt(args[8])
          case None => None
          case Some(crf) => Some(EncodeJob(args[4], crf, args[12], e))
  }

  /**
   * The command encodes exactly the requested job: the reference as input,
   * the chosen encoder with its own quality flag and preset, the CRF written
   * so that it reads back unchanged, and the requested output.
   */
  lemma EncodeCommandRoundTrip(reference: string, crf: int, output: string, e: Encoder)
    ensures ReadEncodeCommand(EncodeCommand(reference, crf, output, e)) == Some(EncodeJob(reference, crf, output, e))
  {
    var args := EncodeCommand(reference, crf, output, e);
    assert args[..4] == ["ffmpeg", "-v", "error", "-i"];
    ParseIntText(crf);
  }

  /** Commands for two different jobs differ. */
  lemma EncodeCommandInjective(r1: string, c1: int, o1: string, e1: Encoder, r2: string, c2: int, o2: string, e2: Encoder)
    requires EncodeCommand(r1, c1, o1, e1) == EncodeCommand(r2, c2, o2, e2)
    ensures r1 == r2 && c1 == c2 && o1 == o2 && e1 == e2
  {
    EncodeCommandRoundTrip(r1, c1, o1, e1);
    EncodeCommandRoundTrip(r2, c2, o2, e2);
  }
}
