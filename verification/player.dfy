/** Players: a name, a symbol and a kind; identity is the symbol alone. */
module Players {

  datatype PlayerType = Human | AI

  /** What `equals` may be handed: null, a player, or an object of some other class. */
  datatype Object = Null | PlayerObject(player: Player) | OtherObject

  datatype Player = Player(name: string, symbol: char, playerType: PlayerType)
  {
    /** Java equals: same object, or another Player with the same symbol; name and kind are ignored. */
    function Equals(obj: Object): (r: bool)
      ensures r <==> obj.PlayerObject? && obj.player.symbol == symbol
    {
      if obj == PlayerObject(this) then true
      else if obj.Null? || !obj.PlayerObject? then false
      else symbol == obj.player.symbol
    }

    /** Java hashCode: Character.hashCode of the symbol, i.e. its code. */
    function HashCode(): (h: int)
      ensures 0 <= h < 0x11_0000
      ensures h == symbol as int
    {
      symbol as int
    }
  }

  /** equals is an equivalence relation on players, and equal players hash alike. */
  lemma EqualsIsEquivalence(p: Player, q: Player, t: Player)
    ensures p.Equals(PlayerObject(p))
    ensures p.Equals(PlayerObject(q)) ==> q.Equals(PlayerObject(p))
    ensures p.Equals(PlayerObject(q)) && q.Equals(PlayerObject(t)) ==> p.Equals(PlayerObject(t))
    ensures p.Equals(PlayerObject(q)) ==> p.HashCode() == q.HashCode()
  {
  }
}
