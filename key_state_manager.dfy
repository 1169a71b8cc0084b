/** Keyboard snapshot (src/main/java/victory/engine/gui/KeyStateManager.java):
    two boolean arrays indexed by key code, one for the current frame and one
    for the previous frame, the queries built on them, the end-of-tick
    rollover, and the handler that AWT calls for each key event. */
module Input {

  /** java.awt.event.KeyEvent.KEY_LAST: the arrays have KEY_LAST + 1 slots, so key
      codes from 403 on are not tracked. */
  const KeyLast: int := 402
  const KeyCount: int := KeyLast + 1
  /** Event ids of java.awt.event.KeyEvent. */
  const KeyTyped: int := 400
  const KeyPressed: int := 401
  const KeyReleased: int := 402

  /** The six logical buttons and their key codes (KeyEvent.VK_W, VK_S, VK_A,
      VK_D, VK_SPACE, VK_TAB). */
  datatype Button = Up | Down | Left | Right | Accept | Cancel {
    function Index(): (code: int)
      ensures 0 <= code < KeyCount
    {
      match this
      case Up => 87
      case Down => 83
      case Left => 65
      case Right => 68
      case Accept => 32
      case Cancel => 9
    }
  }

  /** Distinct buttons read distinct keys. */
  lemma ButtonCodesDistinct(a: Button, b: Button)
    ensures a.Index() == b.Index() <==> a == b
  {
  }

  class KeyStateManager {
    /** Key state in the current frame. */
    const keys: array<bool>
    /** Key state as it was in the last frame. */
    const keysLast: array<bool>

    ghost predicate Valid() {
      keys.Length == KeyCount && keysLast.Length == KeyCount && keys != keysLast
    }

    /** Java zero-fills new arrays: every key starts up in both frames. */
    constructor ()
      ensures Valid() && fresh(keys) && fresh(keysLast)
      ensures forall i :: 0 <= i < KeyCount ==> !keys[i] && !keysLast[i]
    {
      keys := new bool[KeyCount](_ => false);
      keysLast := new bool[KeyCount](_ => false);
    }

    /** Rollover: the current state becomes the last-frame state, so that
        afterwards no key counts as freshly pressed or released. */
    method Update()
      requires Valid()
      modifies keysLast
      ensures keysLast[..] == keys[..]
      ensures forall i :: 0 <= i < KeyCount ==> !IsPressed(i) && !IsReleased(i)
    {
      var i := 0;
      while i < keys.Length
        invariant 0 <= i <= keys.Length
        invariant forall j :: 0 <= j < i ==> keysLast[j] == keys[j]
      {
        keysLast[i] := keys[i];
        i := i + 1;
      }
    }

    /** Down now, up in the last frame: a fresh press is a key that is down. */
    predicate IsPressed(i: int): (pressed: bool)
      requires Valid() && 0 <= i < KeyCount
      reads keys, keysLast
      ensures pressed ==> IsDown(i)
      ensures pressed <==> IsDown(i) && !keysLast[..][i]
    {
      keys[i] && !keysLast[i]
    }

    /** Up now, down in the last frame: a fresh release is never a fresh press. */
    predicate IsReleased(i: int): (released: bool)
      requires Valid() && 0 <= i < KeyCount
      reads keys, keysLast
      ensures released ==> !IsDown(i) && !IsPressed(i)
      ensures released <==> !IsDown(i) && keysLast[..][i]
    {
      keysLast[i] && !keys[i]
    }

    /** Down in the current frame, whatever the last frame says. */
    predicate IsDown(i: int): (down: bool)
      requires Valid() && 0 <= i < KeyCount
      reads keys
      ensures down <==> keys[..][i]
    {
      keys[i]
    }

    /** The button's key is down. */
    predicate IsButtonDown(b: Button): (down: bool)
      requires Valid()
      reads keys
      ensures down <==> keys[..][b.Index()]
    {
      IsDown(b.Index())
    }

    /** The button's key was freshly pressed; it is then also down. */
    predicate WasButtonPressed(b: Button): (pressed: bool)
      requires Valid()
      reads keys, keysLast
      ensures pressed ==> IsButtonDown(b)
      ensures pressed <==> keys[..][b.Index()] && !keysLast[..][b.Index()]
    {
      IsPressed(b.Index())
    }

    /** AWT key-event hook. A code inside the arrays is handled: PRESSED sets its
        current state, RELEASED clears it, any other id leaves it; a code beyond
        the arrays is refused. The last-frame array is never touched. */
    method DispatchKeyEvent(code: int, id: int) returns (handled: bool)
      requires Valid() && 0 <= code
      modifies keys
      ensures handled <==> code < KeyCount
      ensures keys[..] ==
        if code < KeyCount && id == KeyPressed then old(keys[..])[code := true]
        else if code < KeyCount && id == KeyReleased then old(keys[..])[code := false]
        else old(keys[..])
    {
      if code < keys.Length {
        if id == KeyPressed {
          keys[code] := true;
        } else if id == KeyReleased {
          keys[code] := false;
        }
        return true;
      } else {
        return false;
      }
    }
  }

  /** Every tracked key is in exactly one of four states: freshly pressed,
      held (down in both frames), freshly released, or up in both frames. */
  lemma KeyStatePartition(k: KeyStateManager, i: int)
    requires k.Valid() && 0 <= i < KeyCount
    ensures var held := k.IsDown(i) && !k.IsPressed(i);
      var idle := !k.IsDown(i) && !k.IsReleased(i);
      && (k.IsPressed(i) || held || k.IsReleased(i) || idle)
      && !(k.IsPressed(i) && k.IsReleased(i))
      && !(held && (k.IsPressed(i) || k.IsReleased(i) || idle))
      && !(idle && (k.IsPressed(i) || k.IsReleased(i)))
      && (held <==> k.keys[i] && k.keysLast[i])
      && (idle <==> !k.keys[i] && !k.keysLast[i])
  {
  }
}
