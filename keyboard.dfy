/**
  The keyboard part of SBDL's core state: the pointer to SDL's live key-state array, the copy
  of that array taken at the previous frame, and the array's size (-1 before the first
  update). Key queries compare the two arrays; `UpdateEvents` takes the copy and lets SDL
  refresh its array.
*/
module Keyboard {

  /** One `Uint8` entry of SDL's key-state array; any non-zero value means "down". */
  newtype byte = b: int | 0 <= b < 256

  class Keyboard {
    /** Size of SDL's key-state array, or -1 before the first update. */
    var size: int
    /** SDL's own key-state array, shared with SDL (null before the first update). */
    var keystate: array?<byte>
    /** The engine's copy of the key states of the previous frame (null before the first update). */
    var oldKeystate: array?<byte>

    ghost predicate Valid()
      reads this
    {
      if size == -1 then keystate == null && oldKeystate == null
      else keystate != null && oldKeystate != null && keystate != oldKeystate &&
           keystate.Length == size && oldKeystate.Length == size
    }

    /** The key queries are meaningful once the first update has run. */
    ghost predicate Ready()
      reads this
    {
      Valid() && size != -1
    }

    constructor ()
      ensures Valid() && size == -1
    {
      size := -1;
      keystate := null;
      oldKeystate := null;
    }

    /** The key went down since the previous frame. */
    predicate KeyPressed(scanCode: int)
      reads this, keystate, oldKeystate
      requires Ready() && 0 <= scanCode < size
    {
      oldKeystate[scanCode] == 0 && keystate[scanCode] != 0
    }

    /** The key went up since the previous frame. */
    predicate KeyReleased(scanCode: int)
      reads this, keystate, oldKeystate
      requires Ready() && 0 <= scanCode < size
    {
      oldKeystate[scanCode] != 0 && keystate[scanCode] == 0
    }

    /** The key was down at the previous frame and still is. */
    predicate KeyHeld(scanCode: int)
      reads this, keystate, oldKeystate
      requires Ready() && 0 <= scanCode < size
    {
      oldKeystate[scanCode] != 0 && keystate[scanCode] != 0
    }

    /**
      The keyboard half of the per-frame update. `sdl` is the array SDL's keyboard-state query
      hands out (the same array every time) and `pumped` is what SDL's event pump leaves in it.
      The first call allocates a zeroed copy; later calls copy the current states into it
      before the pump, so afterwards the copy holds the previous frame and SDL's array the new
      one.
    */
    method UpdateEvents(sdl: array<byte>, pumped: seq<byte>)
      requires Valid()
      requires size != -1 ==> sdl == keystate
      requires |pumped| == sdl.Length
      modifies this, oldKeystate, sdl
      ensures Ready() && size == sdl.Length && keystate == sdl
      ensures keystate[..] == pumped
      ensures old(size) == -1 ==> fresh(oldKeystate) && oldKeystate[..] == seq(size, _ => 0)
      ensures old(size) != -1 ==> oldKeystate == old(oldKeystate) && oldKeystate[..] == old(sdl[..])
      ensures forall c :: 0 <= c < size ==>
        (KeyPressed(c) <==> (old(size) == -1 || old(sdl[c]) == 0) && pumped[c] != 0) &&
        (KeyReleased(c) <==> old(size) != -1 && old(sdl[c]) != 0 && pumped[c] == 0) &&
        (KeyHeld(c) <==> old(size) != -1 && old(sdl[c]) != 0 && pumped[c] != 0)
    {
      if size == -1 {
        keystate := sdl;
        size := sdl.Length;
        var copy := new byte[size];
        for i := 0 to size
          modifies copy
          invariant forall k :: 0 <= k < i ==> copy[k] == 0
        {
          copy[i] := 0;
        }
        oldKeystate := copy;
      } else {
        var copy := oldKeystate;
        for i := 0 to size
          modifies copy
          invariant forall k :: 0 <= k < i ==> copy[k] == sdl[k]
        {
          copy[i] := sdl[i];
        }
        keystate := sdl;
        size := sdl.Length;
      }
      // SDL's event pump refreshes the array the engine's pointer shares with SDL.
      forall k | 0 <= k < sdl.Length {
        sdl[k] := pumped[k];
      }
    }
  }

  /** At most one of pressed, released and held holds for a key, and the key is down now
      exactly when it was pressed or is held. */
  lemma KeyStatesExclusive(kb: Keyboard, scanCode: int)
    requires kb.Ready() && 0 <= scanCode < kb.size
    ensures !(kb.KeyPressed(scanCode) && kb.KeyReleased(scanCode))
    ensures !(kb.KeyPressed(scanCode) && kb.KeyHeld(scanCode))
    ensures !(kb.KeyReleased(scanCode) && kb.KeyHeld(scanCode))
    ensures kb.keystate[scanCode] != 0 <==> kb.KeyPressed(scanCode) || kb.KeyHeld(scanCode)
    ensures kb.oldKeystate[scanCode] != 0 <==> kb.KeyReleased(scanCode) || kb.KeyHeld(scanCode)
  {
  }
}
