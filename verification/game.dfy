/** The end of a game frame: a chain with no live segment left is a cleared
    wave, replaced by a fresh chain one step faster together with a faster
    spider; a player without lives ends the game. */
module Game {
  import opened Globals
  import opened Mushrooms
  import opened Segments
  import opened Centipede
  import opened Spiders
  import opened LaserBlaster

  /** Whether some segment of the chain is still alive. */
  predicate AnyAlive(segs: seq<Segment>) {
    exists k :: 0 <= k < |segs| && segs[k].status == Alive
  }

  /** The scan for a live segment, stopping at the first one. */
  method FindAlive(segs: seq<Segment>) returns (alive: bool)
    ensures alive <==> AnyAlive(segs)
  {
    alive := false;
    var i := 0;
    while i < |segs|
      invariant 0 <= i <= |segs|
      invariant forall k :: 0 <= k < i ==> segs[k].status != Alive
      decreases |segs| - i
    {
      if segs[i].status == Alive {
        alive := true;
        break;
      }
      i := i + 1;
    }
  }

  /** A cleared wave: a chain of `length` fresh segments built at the old
      speed, then retimed one step faster. */
  function NextWave(id0: int, length: int, speed: int, d: Dims): (r: seq<Segment>)
    requires length > 0 && speed > 0 && d.Valid()
    ensures |r| == length
  {
    var born := Fresh(id0, length, speed, d);
    seq(length, k requires 0 <= k < length => Retimed(born[k], speed + 1, d))
  }

  /** The next wave is a whole live chain headed by its first segment, in
      step with the faster speed, with fresh consecutive ids. */
  lemma NextWaveFresh(id0: int, length: int, speed: int, d: Dims)
    requires length > 0 && speed > 0 && d.Valid()
    ensures var r := NextWave(id0, length, speed, d);
            && AllPaced(r, speed + 1, d)
            && (forall k :: 0 <= k < length ==> r[k].status == Alive && r[k].id == id0 + k)
            && (forall k :: 0 <= k < length ==> (r[k].kind == Head <==> k == 0))
  {
    FreshChain(id0, length, speed, d);
    RetimedAllPaced(Fresh(id0, length, speed, d), NextWave(id0, length, speed, d), speed, speed + 1, d);
  }

  /** The wave-clear and game-over rules at the end of a game frame, with
      the screen the game shows next. */
  method EndOfFrame(chain: Chain, spider: Spider, player: Player, field: Field, counter: Counter, d: Dims)
    returns (screen: Screen)
    requires d.Valid() && chain.Valid(d) && chain.length > 0
    modifies chain`segments, chain`speed, spider`speed, field, player`highScore, counter
    ensures chain.Valid(d)
    ensures spider.speed == old(spider.speed) + (if AnyAlive(old(chain.segments)) then 0 else 1)
    ensures counter.next == old(counter.next) + (if AnyAlive(old(chain.segments)) then 0 else chain.length)
                                              + (if player.lives == 0 then chain.length else 0)
    ensures player.lives == 0 ==>
              && screen == HomeScreen && field.items == [] && chain.speed == chain.initialSpeed
              && player.highScore >= old(player.highScore) && player.highScore >= player.score
              && (player.highScore == player.score || player.highScore == old(player.highScore))
              && chain.segments == Fresh(counter.next - chain.length, chain.length, chain.initialSpeed, d)
              && chain.segments == Fresh(old(counter.next) + (if AnyAlive(old(chain.segments)) then 0 else chain.length),
                                         chain.length, chain.initialSpeed, d)
    ensures player.lives != 0 ==>
              && screen == GameScreen && field.items == old(field.items)
              && player.highScore == old(player.highScore)
    ensures player.lives != 0 && AnyAlive(old(chain.segments)) ==>
              chain.segments == old(chain.segments) && chain.speed == old(chain.speed)
              && counter.next == old(counter.next)
    ensures player.lives != 0 && !AnyAlive(old(chain.segments)) ==>
              && chain.speed == old(chain.speed) + 1
              && chain.segments == NextWave(old(counter.next), chain.length, old(chain.speed), d)
              && counter.next == old(counter.next) + chain.length
  {
    var alive := FindAlive(chain.segments);
    if !alive {
      chain.Reset(false, counter, d);
      chain.SetSpeed(chain.speed + 1, d);
      spider.SetSpeed(spider.speed + 1);
      assert chain.segments == NextWave(old(counter.next), chain.length, old(chain.speed), d);
    }
    screen := GameScreen;
    if player.lives == 0 {
      chain.Reset(true, counter, d);
      field.Clear();
      player.UpdateHighScore();
      screen := HomeScreen;
    }
  }
}
