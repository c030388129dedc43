/** The typed cursor over the elements of an array object (struct
    tmate_unpacker).  The pure Pop functions say what one pop does to the
    remaining elements; the class Unpacker is the cursor itself, whose pops
    advance it in place. */
module Cursor {
  import opened Wrappers
  import opened Values

  /** unpack_int on the remaining elements `s`. */
  function PopInt(s: seq<Value>): (r: Result<(int64, seq<Value>)>)
    ensures r.Ok? <==> |s| > 0 && s[0].IsInteger()
    ensures r.Err? ==> r.error == (if |s| == 0 then Exhausted else WrongType)
    ensures r.Ok? ==> s[0].IsInteger() && r.value.0 == AsInt64(s[0])
                      && s == [s[0]] + r.value.1
  {
    if |s| == 0 then Err(Exhausted)
    else if !s[0].IsInteger() then Err(WrongType)
    else Ok((AsInt64(s[0]), s[1..]))
  }

  /** unpack_raw on the remaining elements `s`: the raw bytes, not copied. */
  function PopRaw(s: seq<Value>): (r: Result<(seq<byte>, seq<Value>)>)
    ensures r.Ok? <==> |s| > 0 && s[0].Raw?
    ensures r.Err? ==> r.error == (if |s| == 0 then Exhausted else WrongType)
    ensures r.Ok? ==> s == [Raw(r.value.0)] + r.value.1
  {
    if |s| == 0 then Err(Exhausted)
    else if !s[0].Raw? then Err(WrongType)
    else Ok((s[0].bytes, s[1..]))
  }

  /** unpack_string on the remaining elements `s`: a copy of the raw bytes,
      embedded zero bytes included, followed by one NUL terminator. */
  function PopString(s: seq<Value>): (r: Result<(seq<byte>, seq<Value>)>)
    ensures r.Ok? <==> PopRaw(s).Ok?
    ensures r.Err? ==> r.error == PopRaw(s).error
    ensures r.Ok? ==> var raw := PopRaw(s).value.0;
                      |r.value.0| == |raw| + 1
                      && r.value.0[..|raw|] == raw
                      && r.value.0[|raw|] == 0
                      && r.value.1 == PopRaw(s).value.1
  {
    var p :- PopRaw(s);
    Ok((p.0 + [0], p.1))
  }

  /** unpack_array on the remaining elements `s`: the items of the next
      element, which must be an array, and the parent's remaining elements. */
  function PopArray(s: seq<Value>): (r: Result<(seq<Value>, seq<Value>)>)
    ensures r.Ok? <==> |s| > 0 && s[0].Array?
    ensures r.Err? ==> r.error == (if |s| == 0 then Exhausted else WrongType)
    ensures r.Ok? ==> s == [Array(r.value.0)] + r.value.1
  {
    if |s| == 0 then Err(Exhausted)
    else if !s[0].Array? then Err(WrongType)
    else Ok((s[0].items, s[1..]))
  }

  /** The cursor: `items` is the array it was initialised on, `pos` how many
      elements have been popped (argv - items), so argc is |items| - pos. */
  class Unpacker {
    var items: seq<Value>
    var pos: nat

    ghost predicate Valid()
      reads this
    {
      pos <= |items|
    }

    /** argc */
    function Argc(): nat
      reads this
      requires Valid()
    {
      |items| - pos
    }

    /** The elements not yet popped, argv[0 .. argc). */
    function Rest(): (s: seq<Value>)
      reads this
      requires Valid()
      ensures |s| == Argc()
    {
      items[pos..]
    }

    /** A cursor over nothing, as a freshly declared struct is before
        init_unpacker fills it. */
    constructor ()
      ensures Valid() && items == [] && pos == 0
    {
      items, pos := [], 0;
    }

    /** init_unpacker: point the cursor at the items of `obj`, which must be
        an array. */
    method Init(obj: Value) returns (r: Status)
      requires Valid()
      modifies this
      ensures Valid()
      ensures r == (if obj.Array? then Done else Failed(WrongType))
      ensures obj.Array? ==> items == obj.items && pos == 0 && Rest() == obj.items
      ensures !obj.Array? ==> items == old(items) && pos == old(pos)
    {
      if !obj.Array? {
        return Failed(WrongType);
      }
      items, pos := obj.items, 0;
      r := Done;
    }

    /** unpack_int */
    method UnpackInt() returns (r: Result<int64>)
      requires Valid()
      modifies this
      ensures Valid() && items == old(items)
      ensures PopInt(old(Rest())).Ok? ==> pos == old(pos) + 1
      ensures PopInt(old(Rest())).Err? ==> pos == old(pos)
      ensures r == (match PopInt(old(Rest()))
                    case Ok(p) => Ok(p.0)
                    case Err(e) => Err(e))
      ensures PopInt(old(Rest())).Ok? ==> Rest() == PopInt(old(Rest())).value.1
    {
      if pos == |items| {
        return Err(Exhausted);
      }
      if !items[pos].IsInteger() {
        return Err(WrongType);
      }
      r := Ok(AsInt64(items[pos]));
      pos := pos + 1;
    }

    /** unpack_raw */
    method UnpackRaw() returns (r: Result<seq<byte>>)
      requires Valid()
      modifies this
      ensures Valid() && items == old(items)
      ensures PopRaw(old(Rest())).Ok? ==> pos == old(pos) + 1
      ensures PopRaw(old(Rest())).Err? ==> pos == old(pos)
      ensures r == (match PopRaw(old(Rest()))
                    case Ok(p) => Ok(p.0)
                    case Err(e) => Err(e))
      ensures PopRaw(old(Rest())).Ok? ==> Rest() == PopRaw(old(Rest())).value.1
    {
      if pos == |items| {
        return Err(Exhausted);
      }
      if !items[pos].Raw? {
        return Err(WrongType);
      }
      r := Ok(items[pos].bytes);
      pos := pos + 1;
    }

    /** unpack_string: unpack_raw, then a NUL-terminated copy. */
    method UnpackString() returns (r: Result<seq<byte>>)
      requires Valid()
      modifies this
      ensures Valid() && items == old(items)
      ensures PopString(old(Rest())).Ok? ==> pos == old(pos) + 1
      ensures PopString(old(Rest())).Err? ==> pos == old(pos)
      ensures r == (match PopString(old(Rest()))
                    case Ok(p) => Ok(p.0)
                    case Err(e) => Err(e))
      ensures PopString(old(Rest())).Ok? ==> Rest() == PopString(old(Rest())).value.1
    {
      var raw := UnpackRaw();
      if raw.Err? {
        return Err(raw.error);
      }
      r := Ok(raw.value + [0]);
    }

    /** unpack_array: `nested` becomes a cursor over the next element, which
        must be an array, and this cursor advances past it. */
    method UnpackArray(nested: Unpacker) returns (r: Status)
      requires Valid() && nested.Valid() && nested != this
      modifies this, nested
      ensures Valid() && nested.Valid() && items == old(items)
      ensures PopArray(old(Rest())).Ok? ==>
                r == Done && pos == old(pos) + 1
                && nested.Rest() == PopArray(old(Rest())).value.0
                && Rest() == PopArray(old(Rest())).value.1
      ensures PopArray(old(Rest())).Err? ==>
                r == Failed(PopArray(old(Rest())).error) && pos == old(pos)
    {
      if pos == |items| {
        return Failed(Exhausted);
      }
      r := nested.Init(items[pos]);
      if r.Failed? {
        return;
      }
      pos := pos + 1;
    }

    /** The step of the unpack_each loop: argv++, argc--. */
    method Skip()
      requires Valid() && Argc() > 0
      modifies this
      ensures Valid() && items == old(items) && pos == old(pos) + 1
      ensures Rest() == old(Rest())[1..]
    {
      pos := pos + 1;
    }
  }
}
