/** Component data and the component bitmask (internal/components/components.go). */
module Components {
  import opened Points
  import opened Wrappers

  /** `ComponentMask`: a uint32 with one bit per component type. */
  type ComponentMask = bv32

  /** Go's `1 << iota` inside the constant block: MaskNone takes iota 0 and
      is set to 0 explicitly, so MaskPosition is on iota 1 and gets bit 1. */
  function Bit(iota: nat): (m: ComponentMask)
    requires 1 <= iota <= 9
  {
    (1 as bv32) << iota
  }

  const MaskNone: ComponentMask := 0
  const MaskPosition: ComponentMask := Bit(1)
  const MaskSprite: ComponentMask := Bit(2)
  const MaskPlayerControl: ComponentMask := Bit(3)
  const MaskGlyph: ComponentMask := Bit(4)
  const MaskSolid: ComponentMask := Bit(5)
  const MaskInteractable: ComponentMask := Bit(6)
  const MaskPowerGenerator: ComponentMask := Bit(7)
  const MaskDoor: ComponentMask := Bit(8)
  const MaskTerminal: ComponentMask := Bit(9)

  /** The component masks in declaration order. */
  const Masks: seq<ComponentMask> := [MaskPosition, MaskSprite, MaskPlayerControl, MaskGlyph, MaskSolid,
                                       MaskInteractable, MaskPowerGenerator, MaskDoor, MaskTerminal]

  /** `(m & t) == t`: the entity has every component of t. */
  predicate HasAll(m: ComponentMask, t: ComponentMask) {
    m & t == t
  }

  /** The constants: MaskPosition is 2 and each later mask doubles, up to 512. */
  lemma MaskValues()
    ensures MaskNone == 0 && MaskPosition == 2 && MaskTerminal == 512
    ensures forall i :: 0 < i < |Masks| ==> Masks[i] == Masks[i - 1] * 2
  {
  }

  /** Each mask is a single bit, and no two masks share a bit. */
  lemma MasksDisjoint()
    ensures forall i :: 0 <= i < |Masks| ==> Masks[i] != 0 && Masks[i] & (Masks[i] - 1) == 0
    ensures forall i, j :: 0 <= i < j < |Masks| ==> Masks[i] & Masks[j] == 0
  {
  }

  /** The autopilot's filter: a mask holds both PlayerControl and Position
      exactly when it holds each of them. */
  lemma HasBoth(m: ComponentMask)
    ensures HasAll(m, MaskPlayerControl | MaskPosition) <==>
            HasAll(m, MaskPlayerControl) && HasAll(m, MaskPosition)
  {
  }

  /** `PlayerStatus`: a uint8. */
  newtype PlayerStatus = x: int | 0 <= x < 256

  const StatusHealthy: PlayerStatus := 0
  const StatusSick: PlayerStatus := 1
  const StatusHurt: PlayerStatus := 2

  /** `PlayerStatus.Title`. */
  function Title(s: PlayerStatus): (t: string)
    ensures t == "Unknown" <==> s > StatusHurt
  {
    if s == StatusHealthy then "Healthy"
    else if s == StatusSick then "SICK / TOXIC"
    else if s == StatusHurt then "Hurt"
    else "Unknown"
  }

  /** Reads a title back as the status it names. */
  function StatusOfTitle(t: string): (s: Option<PlayerStatus>)
  {
    if t == "Healthy" then Some(StatusHealthy)
    else if t == "SICK / TOXIC" then Some(StatusSick)
    else if t == "Hurt" then Some(StatusHurt)
    else None
  }

  /** The three named statuses have distinct titles that read back as the
      same status; every other value reads back as none. */
  lemma TitleRoundTrip(s: PlayerStatus)
    ensures StatusOfTitle(Title(s)) == if s <= StatusHurt then Some(s) else None
  {
  }

  /** `Position`. */
  datatype Position = Position(x: int, y: int)

  /** `PlayerControl`: the autopilot switch, the steps still to walk, and
      the player's condition. A nil path is the empty sequence. */
  datatype PlayerControl = PlayerControl(autopilot: bool, currentPath: seq<Point>, status: PlayerStatus)

  /** `core.Color`: RGBA bytes. */
  datatype Color = Color(r: bv8, g: bv8, b: bv8, a: bv8)

  datatype Sprite = Sprite(sheetX: int, sheetY: int, color: Color)
  datatype Glyph = Glyph(glyph: string, color: Color)
  datatype Solid = Solid
  datatype Interactable = Interactable(prompt: string)
  datatype PowerGenerator = PowerGenerator(isActive: bool)
  datatype Door = Door(isOpen: bool)
  datatype Terminal = Terminal(hasSaved: bool)
}
