/** The ANSI colour escapes of internal/world/tile_variants.go: each is the
    control sequence introducer ESC "[" , a number, and the final "m". */
module Ansi {
  /** ESC "[" (the source writes it both as "\x1b[" and as "\033[", which
      are the same two characters). */
  const Csi := "\U{1B}["

  const Reset := "\U{1B}[0m"
  const Red := "\U{1B}[31m"
  const Green := "\U{1B}[32m"
  const Yellow := "\U{1B}[33m"
  const Blue := "\U{1B}[34m"
  const Magenta := "\U{1B}[35m"
  const Cyan := "\U{1B}[36m"
  const White := "\U{1B}[37m"
  const Gray := "\U{1B}[90m"

  predicate HasPrefix(s: string, p: string) {
    |p| <= |s| && s[..|p|] == p
  }

  /** A colour escape: it starts with ESC "[" and its only "m" is its last
      character. */
  predicate IsColorCode(c: string) {
    HasPrefix(c, Csi) && |c| > |Csi| && c[|c| - 1] == 'm' &&
    forall i :: 0 <= i < |c| - 1 ==> c[i] != 'm'
  }

  /** Every escape the game uses, Reset included, has that shape. */
  lemma CodesWellFormed()
    ensures IsColorCode(Reset) && IsColorCode(Red) && IsColorCode(Green) && IsColorCode(Yellow)
    ensures IsColorCode(Blue) && IsColorCode(Magenta) && IsColorCode(Cyan) && IsColorCode(White)
    ensures IsColorCode(Gray)
  {
  }
}
