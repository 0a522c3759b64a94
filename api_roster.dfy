/** The roster queries of the auto-start engine: the colour a joining
    player gets, finding and dropping a player by id, crediting and
    clearing scores, and choosing the winner. */
module ApiRoster {
  import opened Optional
  import opened ApiModel

  // ---------------------------------------------------------------------
  // Colours
  // ---------------------------------------------------------------------

  /** The seven colours players get in turn. */
  const Colors: seq<string> := ["#3b82f6", "#ef4444", "#10b981", "#f59e0b", "#8b5cf6", "#ec4899", "#06b6d4"]

  /** `Colors[count % Colors.Length]`: the colour of the player who joins a
      room that already has `count` players. */
  function ColorFor(count: nat): (c: string)
    ensures c in Colors
  {
    Colors[count % |Colors|]
  }

  /** Two players get the same colour exactly when the roster sizes they
      joined at agree modulo seven: the colours cycle, and within one cycle
      no two players share one. */
  lemma ColorsCycle(m: nat, n: nat)
    ensures ColorFor(m) == ColorFor(n) <==> m % 7 == n % 7
  {
    var a, b := m % 7, n % 7;
    assert |Colors| == 7;
    assert forall x, y :: 0 <= x < y < 7 ==> Colors[x] != Colors[y] by {
      assert Colors[0][1] == '3' && Colors[1][1] == 'e' && Colors[2][1] == '1' && Colors[3][1] == 'f';
      assert Colors[4][1] == '8' && Colors[5][1] == 'e' && Colors[6][1] == '0';
      assert Colors[1][2] == 'f' && Colors[5][2] == 'c';
    }
    if a != b {
      assert Colors[a] != Colors[b] by {
        if a < b {
          assert 0 <= a < b < 7;
        } else {
          assert 0 <= b < a < 7;
        }
      }
    }
  }

  // ---------------------------------------------------------------------
  // Finding and dropping players
  // ---------------------------------------------------------------------

  /** `Players.FirstOrDefault(p => p.Id == id)`, as an index. */
  function FirstById(players: seq<Player>, id: string): (r: Option<nat>)
    ensures r.Some? ==> r.value < |players| && players[r.value].id == id
    ensures r.Some? ==> forall k :: 0 <= k < r.value ==> players[k].id != id
    ensures r.None? <==> forall k :: 0 <= k < |players| ==> players[k].id != id
  {
    if players == [] then None
    else if players[0].id == id then Some(0)
    else match FirstById(players[1..], id)
      case None => None
      case Some(k) => Some(k + 1)
  }

  predicate HasId(players: seq<Player>, id: string)
  {
    exists k :: 0 <= k < |players| && players[k].id == id
  }

  /** `Players.RemoveAll(p => p.Id == id)`: the roster without that id, in
      its order. */
  function WithoutId(players: seq<Player>, id: string): (r: seq<Player>)
    ensures forall p :: p in r <==> p in players && p.id != id
    ensures !HasId(r, id)
    ensures |r| <= |players|
    ensures !HasId(players, id) ==> r == players
  {
    if players == [] then []
    else
      var rest := WithoutId(players[1..], id);
      assert players == [players[0]] + players[1..];
      if players[0].id == id then rest else [players[0]] + rest
  }

  /** Removal goes player by player: from a joined roster it removes from
      each part and joins the results, so the players who stay keep their
      order and their number. */
  lemma {:induction false} WithoutIdAppend(a: seq<Player>, b: seq<Player>, id: string)
    ensures WithoutId(a + b, id) == WithoutId(a, id) + WithoutId(b, id)
  {
    if a == [] {
      assert a + b == b;
    } else {
      assert (a + b)[0] == a[0] && (a + b)[1..] == a[1..] + b;
      WithoutIdAppend(a[1..], b, id);
    }
  }

  /** A single player stays exactly when the id is another. */
  lemma WithoutIdSingle(p: Player, id: string)
    ensures WithoutId([p], id) == if p.id == id then [] else [p]
  {
  }

  /** Dropping an id twice is dropping it once. */
  lemma WithoutIdIdempotent(players: seq<Player>, id: string)
    ensures WithoutId(WithoutId(players, id), id) == WithoutId(players, id)
  {
  }

  // ---------------------------------------------------------------------
  // Scores
  // ---------------------------------------------------------------------

  /** The sum of the scores. */
  function Total(players: seq<Player>): int
  {
    if players == [] then 0 else Total(players[..|players| - 1]) + players[|players| - 1].score
  }

  /** The roster after `FirstOrDefault(p => p.Id == id)` is given n more
      points: the first player with that id, when there is one. */
  function Credited(players: seq<Player>, id: string, n: int): (r: seq<Player>)
    ensures |r| == |players|
  {
    match FirstById(players, id)
      case None => players
      case Some(k) => players[k := players[k].(score := players[k].score + n)]
  }

  /** Crediting adds n to the total exactly when the id is on the roster. */
  lemma CreditedTotal(players: seq<Player>, id: string, n: int)
    ensures Total(Credited(players, id, n)) == Total(players) + if HasId(players, id) then n else 0
  {
    var f := FirstById(players, id);
    if f.Some? {
      var k := f.value;
      var q := players[k].(score := players[k].score + n);
      assert Credited(players, id, n) == players[k := q];
      assert HasId(players, id);
      TotalUpdate(players, k, q);
    } else {
      assert Credited(players, id, n) == players;
    }
  }

  /** Crediting changes nobody's id, name or colour, and only the score of
      the first player with that id. */
  lemma CreditedKeeps(players: seq<Player>, id: string, n: int)
    ensures forall k :: 0 <= k < |players| ==>
              var p := Credited(players, id, n)[k];
              && p.id == players[k].id && p.name == players[k].name && p.color == players[k].color
              && p.score == players[k].score + if FirstById(players, id) == Some(k) then n else 0
  {
    var f := FirstById(players, id);
    if f.Some? {
      var k := f.value;
      assert Credited(players, id, n) == players[k := players[k].(score := players[k].score + n)];
    } else {
      assert Credited(players, id, n) == players;
    }
  }

  /** Replacing one player changes the total by the difference in score. */
  lemma {:induction false} TotalUpdate(players: seq<Player>, k: nat, p: Player)
    requires k < |players|
    ensures Total(players[k := p]) == Total(players) - players[k].score + p.score
  {
    var n := |players| - 1;
    if k < n {
      assert players[k := p][..n] == players[..n][k := p];
      TotalUpdate(players[..n], k, p);
    } else {
      assert players[k := p][..n] == players[..n];
    }
  }

  /** The roster after `foreach (var player in room.Players) player.Score = 0`. */
  function ScoresCleared(players: seq<Player>): (r: seq<Player>)
    ensures |r| == |players|
  {
    seq(|players|, k requires 0 <= k < |players| => players[k].(score := 0))
  }

  /** Clearing leaves every player with no points and nothing else changed. */
  lemma {:induction false} ScoresClearedTotal(players: seq<Player>)
    ensures Total(ScoresCleared(players)) == 0
    ensures forall k :: 0 <= k < |players| ==>
              var p := ScoresCleared(players)[k]; p.score == 0 && p.id == players[k].id && p.name == players[k].name && p.color == players[k].color
  {
    if players != [] {
      var n := |players| - 1;
      assert ScoresCleared(players)[..n] == ScoresCleared(players[..n]);
      ScoresClearedTotal(players[..n]);
    }
  }

  // ---------------------------------------------------------------------
  // The winner
  // ---------------------------------------------------------------------

  /** `OrderByDescending(p => p.Score).First()`, as an index: the sort is
      stable, so of the players with the highest score the one who joined
      first comes first. */
  function Leader(players: seq<Player>): (r: nat)
    requires |players| > 0
    ensures r < |players|
    ensures forall k :: 0 <= k < |players| ==> players[k].score <= players[r].score
    ensures forall k :: 0 <= k < r ==> players[k].score < players[r].score
  {
    if |players| == 1 then 0
    else
      var l := Leader(players[..|players| - 1]);
      if players[|players| - 1].score > players[l].score then |players| - 1 else l
  }

  /** Player k is the first, in roster order, with the highest score:
      nobody scores more, and everybody before k scores less. At most one
      index satisfies this, even when several players tie. */
  predicate FirstHighest(players: seq<Player>, k: int)
  {
    && 0 <= k < |players|
    && (forall l :: 0 <= l < |players| ==> players[l].score <= players[k].score)
    && (forall l :: 0 <= l < k ==> players[l].score < players[k].score)
  }

  /** The winner as the source computes it: the first player, in roster
      order, with the highest score. `.First()` needs a player and throws on
      an empty roster, which this precondition rules out. */
  function WinnerIdAsWritten(players: seq<Player>): (w: string)
    requires |players| > 0
    ensures exists k :: FirstHighest(players, k) && players[k].id == w
    ensures forall k :: FirstHighest(players, k) ==> players[k].id == w
  {
    players[Leader(players)].id
  }

  /** The winner with the empty roster handled: nobody; otherwise the
      first highest scorer. */
  function WinnerId(players: seq<Player>): (w: Option<string>)
    ensures w.None? <==> players == []
    ensures w.Some? ==> exists k :: FirstHighest(players, k) && players[k].id == w.value
    ensures w.Some? ==> forall k :: FirstHighest(players, k) ==> players[k].id == w.value
  {
    if players == [] then None else Some(WinnerIdAsWritten(players))
  }

}
