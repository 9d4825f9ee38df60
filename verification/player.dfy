/** The terminal-era player record of internal/world/player.go and how it
    is drawn: an "@" in a colour that shows the player's condition. */
module Players {
  import opened Points
  import opened Ansi
  import opened Display

  /** `world.PlayerStatus`, a Go int counted by iota. */
  const PlayerStatusHealthy := 0
  const PlayerStatusSick := 1
  const PlayerStatusHurt := 2

  const PlayerCharacter := "@"

  /** `world.Player`. A nil path is the empty sequence. */
  datatype Player = Player(x: int, y: int, status: int, autopilot: bool, currentPath: seq<Point>)

  /** `NewPlayer`: the given place, condition and switch, and no path yet. */
  function NewPlayer(x: int, y: int, status: int, autopilot: bool): (p: Player)
    ensures p.x == x && p.y == y && p.status == status && p.autopilot == autopilot
    ensures p.currentPath == []
  {
    Player(x, y, status, autopilot, [])
  }

  /** The escape `Render` colours the player with. */
  function StatusColor(status: int): (code: string)
    ensures code in ColorTable && code != White
  {
    if status == PlayerStatusSick then Green
    else if status == PlayerStatusHurt then Red
    else Cyan
  }

  /** `Player.Render`: the "@" wrapped in the status colour and a Reset. */
  function Render(p: Player): (s: string)
    ensures |s| == 10 && IsColorCode(s[..5]) && s[5..] == PlayerCharacter + Reset
  {
    StatusColor(p.status) + PlayerCharacter + Reset
  }

  /** What the display makes of the rendered player: the text is "@" and
      the colour is green when sick, red when hurt, and cyan otherwise. */
  lemma RenderParses(p: Player)
    ensures ExtractTextAndColor(Render(p)) ==
            (PlayerCharacter,
             if p.status == PlayerStatusSick then 0x00FF_00FF
             else if p.status == PlayerStatusHurt then 0xFF00_00FF
             else 0x00FF_FFFF)
  {
    var code := StatusColor(p.status);
    assert Render(p) == code + PlayerCharacter + Reset;
    ExtractRoundTrip(code, PlayerCharacter);
    ColorExamples();
  }

  /** The drawing tells the three conditions apart, and says nothing more:
      two players look the same exactly when their statuses fall in the same
      class (sick, hurt, anything else). */
  lemma RenderDistinguishes(p: Player, q: Player)
    ensures Render(p) == Render(q) <==>
            (p.status == PlayerStatusSick) == (q.status == PlayerStatusSick) &&
            (p.status == PlayerStatusHurt) == (q.status == PlayerStatusHurt)
  {
    RenderParses(p);
    RenderParses(q);
  }
}
