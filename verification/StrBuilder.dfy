/** `cu_StrBuilder`: formatted text appended by measuring first and writing then. */
module StrBuilders {
  import opened Printf

  datatype Error = NoError | OutOfMemory

  const INT_MAX: nat := INT_LIMIT - 1

  class StrBuilder {
    var data: array?<char>
    var length: nat
    var capacity: nat

    ghost predicate Valid()
      reads this
    {
      if data == null then length == 0 && capacity == 0 else length <= capacity && data.Length == capacity + 1
    }

    ghost function Contents(): string
      requires Valid()
      reads this, if data == null then {} else {data}
    {
      if data == null then "" else data[..length]
    }

    constructor ()
      ensures Valid() && Contents() == ""
    {
      data, length, capacity := null, 0, 0;
    }

    /** `cu_String_reserve`: room for `cap` characters and a terminator. `granted` is
        the allocator's answer if it is asked. */
    method Reserve(cap: nat, granted: bool) returns (e: Error)
      requires Valid()
      modifies `data, `capacity
      ensures Valid() && Contents() == old(Contents())
      ensures e == (if cap <= old(capacity) || granted then NoError else OutOfMemory)
      ensures data == old(data) || (data != null && fresh(data))
      ensures e.NoError? ==> cap <= capacity
      ensures e.OutOfMemory? ==> data == old(data) && capacity == old(capacity)
      ensures data == null ==> cap == 0 || e.OutOfMemory?
    {
      if cap <= capacity {
        return NoError;
      }
      if !granted {
        return OutOfMemory;
      }
      var grown := new char[cap + 1](_ => ' ');
      if data != null {
        CopyChars(grown, data);
      }
      data, capacity := grown, cap;
      e := NoError;
    }

    /** Appends the text of the format. What is appended is the whole text exactly when
        the format does not stop inside a specifier and the text's length is an `int`. */
    method Appendf(fmt: string, args: seq<Arg>, longBits: nat, granted: bool) returns (e: Error)
      requires Valid() && LongWidth(longBits) && Matches(fmt, 0, args, 0, longBits)
      requires ToInt(Total(fmt, args, longBits)) < INT_MAX
      modifies this, if data == null then {} else {data}
      ensures Valid()
      ensures e.OutOfMemory? ==> Contents() == old(Contents())
      ensures e.OutOfMemory? <==>
        var needed := ToInt(Total(fmt, args, longBits));
        needed < 0 || (old(length) + needed > old(capacity) && !granted)
      ensures e.NoError? ==>
        var text := Expansion(fmt, 0, args, 0, longBits);
        && 0 <= ToInt(Total(fmt, args, longBits)) <= |text| + 1
        && Contents() == old(Contents()) + (text + "\0")[..ToInt(Total(fmt, args, longBits))]
      ensures e.NoError? && !EndsInside(fmt, 0) && data != null ==> length < data.Length && data[length] == '\0'
      ensures e.NoError? ==>
        (Contents() == old(Contents()) + Expansion(fmt, 0, args, 0, longBits) <==>
         !EndsInside(fmt, 0) && |Expansion(fmt, 0, args, 0, longBits)| < INT_MAX)
    {
      hide Expansion, EndsInside, Matches, Printed, ToInt;
      TotalBounds(fmt, args, longBits);
      TotalIsLength(fmt, args, longBits);
      var needed := Vsnprintf(null, 0, 0, fmt, args, longBits);
      if needed < 0 {
        return OutOfMemory;
      }
      var newLen := length + needed;
      e := Reserve(newLen, granted);
      if e != NoError {
        return;
      }
      ghost var before, text := Contents(), Expansion(fmt, 0, args, 0, longBits);
      if data != null {
        ghost var all := data[..];
        var r := Vsnprintf(data, length, needed + 1, fmt, args, longBits);
        AppendedText(all, data[..], length, needed, text);
      }
      length := newLen;
      WholeText(before, text, needed);
    }
  }

  lemma TotalBounds(fmt: string, args: seq<Arg>, longBits: nat)
    requires Matches(fmt, 0, args, 0, longBits)
    ensures ToInt(Total(fmt, args, longBits)) <= |Expansion(fmt, 0, args, 0, longBits)| + 1
    ensures !EndsInside(fmt, 0) ==> ToInt(Total(fmt, args, longBits)) <= |Expansion(fmt, 0, args, 0, longBits)|
  {
  }

  lemma AppendedText(before: seq<char>, now: seq<char>, at: nat, needed: nat, text: string)
    requires Printed(before, now, at, needed + 1, text) && needed <= |text| + 1
    requires at + needed <= |before|
    ensures now[..at + needed] == before[..at] + (text + "\0")[..needed]
    ensures needed <= |text| ==> at + needed < |now| && now[at + needed] == '\0'
  {
  }

  /** Nothing is missing and nothing extra exactly when as many were appended as
      there are. */
  lemma WholeText(before: string, text: string, needed: nat)
    requires needed <= |text| + 1
    ensures before + (text + "\0")[..needed] == before + text <==> needed == |text|
  {
    assert needed == |text| ==> (text + "\0")[..needed] == text;
    assert |before + (text + "\0")[..needed]| == |before| + needed;
  }

  method CopyChars(dst: array<char>, src: array<char>)
    requires src.Length <= dst.Length && dst != src
    modifies dst
    ensures dst[..src.Length] == src[..]
  {
    for i := 0 to src.Length
      invariant dst[..i] == src[..i]
    {
      dst[i] := src[i];
    }
  }
}
