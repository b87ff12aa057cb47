/** The player store `AstroEmpires.Player`: a dictionary from player id to
    player record, and a cursor (id, name, guild of the current player).
    Unlike the message store it has no traversal. */
module Players {
  import opened Js

  /** A stored player: the four properties `set` copies out of its argument. */
  datatype Player = Player(id: JsValue, time: JsValue, name: JsValue, guild: JsValue)

  /** What the store publishes; both events carry `set`'s argument, and the
      store itself goes to the observers as well: `store` is what they find
      in it at that moment. */
  datatype PlayerEvent =
    | PreSet(player: Arg<Player>, store: map<string, Player>)
    | PostSet(player: Arg<Player>, store: map<string, Player>)

  class PlayerStore {
    /** `this.players`, keyed by the string form of the player id. */
    var players: map<string, Player>
    // The cursor. A player's time is stored but never copied here.
    var id: JsValue
    var name: JsValue
    var guild: JsValue
    /** Everything the store has published, oldest first. */
    ghost var published: seq<PlayerEvent>

    constructor ()
      ensures players == map[] && published == []
      ensures id == Null && name == Null && guild == Null
    {
      players := map[];
      id, name, guild := Null, Null, Null;
      published := [];
    }

    method Exists(playerId: JsValue) returns (b: bool)
      ensures b <==> ToStr(playerId) in players
    {
      b := false;
      if ToStr(playerId) in players {
        b := true;
      }
    }

    /** Makes the player stored under playerId the current one. */
    method Get(playerId: JsValue) returns (found: bool)
      modifies this`id, this`name, this`guild
      ensures found <==> ToStr(playerId) in players
      ensures found ==> var p := players[ToStr(playerId)]; id == p.id && name == p.name && guild == p.guild
      ensures !found ==> id == old(id) && name == old(name) && guild == old(guild)
    {
      found := Exists(playerId);
      if found {
        var p := players[ToStr(playerId)];
        id, name, guild := p.id, p.name, p.guild;
      }
    }

    /** Stores the player under its own id, replacing any earlier record
        whole; `pre_set` goes out first, `post_set` only after a write. */
    method Set(arg: Arg<Player>) returns (r: Completion)
      modifies this
      ensures arg.Missing? || (arg.Object? && !Truthy(arg.props.id)) ==>
        && r == Returned(false)
        && published == old(published) + [PreSet(arg, old(players))]
        && players == old(players)
        && id == old(id) && name == old(name) && guild == old(guild)
      ensures arg.NullArg? ==>
        && r == Threw(TypeError)
        && published == old(published) + [PreSet(arg, old(players))]
        && players == old(players)
        && id == old(id) && name == old(name) && guild == old(guild)
      ensures arg.Object? && Truthy(arg.props.id) ==>
        && r == Returned(true)
        && published == old(published) + [PreSet(arg, old(players)), PostSet(arg, players)]
        && players == old(players)[ToStr(arg.props.id) := arg.props]
        && id == arg.props.id && name == arg.props.name && guild == arg.props.guild
    {
      var success := false;
      published := published + [PreSet(arg, players)];
      if arg.NullArg? {
        return Threw(TypeError);
      }
      if arg.Object? && Truthy(arg.props.id) {
        var p := arg.props;
        players := players[ToStr(p.id) := Player(p.id, p.time, p.name, p.guild)];
        success := true;
        published := published + [PostSet(arg, players)];
      }
      if success {
        var found := Get(arg.props.id);
        r := Returned(found);
      } else {
        r := Returned(false);
      }
    }
  }
}
