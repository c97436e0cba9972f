/**
  Colour byte order. Style requests name colours in the conventional RRGGBB
  order; Advanced SubStation Alpha stores them as `&HAABBGGRR`, the channels
  reversed behind an alpha byte.
 */
module Colours {
  import opened Results

  /** The conventional RRGGBB value of each colour name the style requests know. */
  function NamedRgb(name: string): Option<string> {
    match name
    case "white" => Some("FFFFFF")
    case "red" => Some("FF0000")
    case "blue" => Some("0000FF")
    case "green" => Some("00FF00")
    case "yellow" => Some("FFFF00")
    case "black" => Some("000000")
    case "cyan" => Some("00FFFF")
    case "magenta" => Some("FF00FF")
    case _ => None
  }

  /** Swaps the first and the last of three two-digit channels:
      RRGGBB to BBGGRR, and back. */
  function ReverseChannels(hex: string): (r: string)
    requires |hex| == 6
    ensures |r| == 6
  {
    hex[4..6] + hex[2..4] + hex[..2]
  }

  /** An opaque colour as a style field: alpha 00, then BBGGRR. */
  function AssColour(rgb: string): string
    requires |rgb| == 6
  {
    "&H00" + ReverseChannels(rgb)
  }
}
