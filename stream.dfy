/** The virtual-source stream (src/Support/ClosureStream.php): an in-memory, read-only, seekable
    cursor over the PHP source synthesised from a closure's rendered code. */
module Stream {
  import opened Wrappers

  /** STREAM_PROTO . '://', the 29 characters stream_open strips from the path. */
  const ProtoPrefix: string := "omega-serializable-closure://"

  /** What every synthesised file starts with. */
  const Prelude: string := "<?php\nreturn "

  /** PHP's whence values. */
  const SEEK_SET: int := 0
  const SEEK_CUR: int := 1
  const SEEK_END: int := 2

  function Min(a: int, b: int): (m: int) { if a <= b then a else b }

  /** PHP 8's substr(s, start, count) for a non-negative start and count (None: to the end): the run
      of characters from position start, at most count long, empty when start is at or past the end. */
  function Substr(s: string, start: nat, count: Option<nat>): (r: string)
    ensures |r| == if start >= |s| then 0
                   else if count.None? then |s| - start
                   else Min(count.value, |s| - start)
    ensures forall k :: 0 <= k < |r| ==> r[k] == s[start + k]
  {
    if start >= |s| then ""
    else if count.None? then s[start..]
    else s[start..Min(start + count.value, |s|)]
  }

  /** The content stream_open synthesises from a path: the prelude, the path minus its first 29
      characters (not checked to be the protocol prefix), and a closing ";". */
  function SourceFor(path: string): (source: string)
  {
    Prelude + Substr(path, |ProtoPrefix|, None) + ";"
  }

  /** The synthesised content has length 14 + max(0, |path| - 29). */
  lemma SourceForLength(path: string)
    ensures |SourceFor(path)| == 14 + (if |path| > 29 then |path| - 29 else 0)
  {
  }

  /** Opening the URL of some code yields that code wrapped as `<?php\nreturn <code>;`; whatever the
      first 29 characters of the path are, only the rest reaches the content. */
  lemma SourceForUrl(code: string, scheme: string)
    requires |scheme| == |ProtoPrefix|
    ensures SourceFor(ProtoPrefix + code) == Prelude + code + ";"
    ensures SourceFor(scheme + code) == SourceFor(ProtoPrefix + code)
  {
  }

  /** Two consecutive reads return what one read of their combined size returns. */
  lemma ReadsConcatenate(s: string, p: nat, m: nat, n: nat)
    ensures Substr(s, p, Some(m)) + Substr(s, p + m, Some(n)) == Substr(s, p, Some(m + n))
  {
  }

  /** What a reader collects by calling read(chunk) from position p until eof(): the content from
      p onward. */
  function Drain(s: string, p: nat, chunk: nat): (collected: string)
    requires chunk > 0
    decreases |s| - p
  {
    if p >= |s| then "" else Substr(s, p, Some(chunk)) + Drain(s, p + chunk, chunk)
  }

  /** Reading in chunks of any positive size until eof yields exactly the rest of the content. */
  lemma {:induction false} DrainYieldsRest(s: string, p: nat, chunk: nat)
    requires chunk > 0
    ensures Drain(s, p, chunk) == if p < |s| then s[p..] else ""
    decreases |s| - p
  {
    if p < |s| {
      DrainYieldsRest(s, p + chunk, chunk);
      var head := Substr(s, p, Some(chunk));
      if p + chunk < |s| {
        assert head == s[p..p + chunk];
        assert s[p..] == s[p..p + chunk] + s[p + chunk..];
      } else {
        assert head == s[p..];
      }
    }
  }

  /** Where seek() puts the pointer before checking it: offset for SEEK_SET, pointer + offset for
      SEEK_CUR, length + offset for SEEK_END, and the pointer itself for any other whence. */
  function SeekTarget(pointer: int, length: int, offset: int, whence: int): (target: int)
  {
    if whence == SEEK_SET then offset
    else if whence == SEEK_CUR then pointer + offset
    else if whence == SEEK_END then length + offset
    else pointer
  }

  /** The stream wrapper instance PHP creates for one reconstruction. */
  class ClosureStream {
    var content: string
    /** The content length. The source assigns it to a misspelt property (`lenght`, line 89), so
        the declared `length` stays null; this class models the evident intent, length = |content|
        once opened. ShippedEof and ShippedSeek model the code as written. */
    var length: int
    var pointer: int

    ghost predicate Valid()
      reads this
    {
      length == |content| && 0 <= pointer
    }

    /** A wrapper instance before stream_open: nothing read yet. */
    constructor ()
      ensures Valid() && content == "" && pointer == 0
    {
      content, length, pointer := "", 0, 0;
    }

    /** stream_open(): synthesise the content from the path; always succeeds. */
    method Open(path: string) returns (ok: bool)
      requires Valid()
      modifies this
      ensures Valid() && ok
      ensures content == SourceFor(path) && pointer == old(pointer)
    {
      content := SourceFor(path);
      length := |content|;
      ok := true;
    }

    /** stream_read(): the next count characters (fewer at the end, none past it); the pointer
        advances by count even past the end. */
    method Read(count: int) returns (value: string)
      requires Valid() && count >= 0
      modifies this
      ensures Valid() && content == old(content)
      ensures value == Substr(content, old(pointer), Some(count))
      ensures pointer == old(pointer) + count
    {
      value := Substr(content, pointer, Some(count));
      pointer := pointer + count;
    }

    /** stream_eof(): true once the pointer reaches the end of the content. */
    method Eof() returns (b: bool)
      requires Valid()
      ensures b <==> pointer >= |content|
      ensures b <==> Substr(content, pointer, None) == ""
    {
      b := pointer >= length;
    }

    /** stream_set_option(): no option is supported. */
    method SetOption(option: int, arg1: int, arg2: int) returns (ok: bool)
      ensures !ok
    {
      ok := false;
    }

    /** The size stream_stat() reports for an opened stream. */
    method Stat() returns (size: int)
      requires Valid()
      ensures size == |content|
    {
      size := length;
    }

    /** stream_seek(): move to the target position if it lies within [0, length); otherwise fail
        and leave the pointer where it was. */
    method Seek(offset: int, whence: int) returns (ok: bool)
      requires Valid()
      modifies this
      ensures Valid() && content == old(content)
      ensures var t := SeekTarget(old(pointer), |content|, offset, whence);
              (ok <==> 0 <= t < |content|) && pointer == (if ok then t else old(pointer))
    {
      var crt := pointer;
      if whence == SEEK_SET {
        pointer := offset;
      } else if whence == SEEK_CUR {
        pointer := pointer + offset;
      } else if whence == SEEK_END {
        pointer := length + offset;
      }
      if pointer < 0 || pointer >= length {
        pointer := crt;
        return false;
      }
      return true;
    }

    /** stream_tell(): the pointer. */
    method Tell() returns (p: int)
      requires Valid()
      ensures p == pointer && p >= 0
    {
      p := pointer;
    }
  }

  /** PHP 8 compares an int with null by converting both to bool, false < true. */
  function LooseGreaterOrEqualNull(x: int): (ge: bool)
  {
    var bx, bnull := x != 0, false;
    bx || !bnull
  }

  /** stream_eof() as written: the pointer is compared with the null `length`. */
  function ShippedEof(pointer: int): (eof: bool)
  {
    LooseGreaterOrEqualNull(pointer)
  }

  /** stream_seek() as written: SEEK_END adds the offset to null (that is, to 0), and the range
      check compares with the null `length`. Yields the result and the new pointer. */
  function ShippedSeek(pointer: int, offset: int, whence: int): (bool, int)
  {
    var t := SeekTarget(pointer, 0, offset, whence);
    if t < 0 || LooseGreaterOrEqualNull(t) then (false, pointer) else (true, t)
  }

  /** As written, eof() is true at every position and every seek fails without moving the pointer. */
  lemma ShippedStreamIsAlwaysAtEof(pointer: int, offset: int, whence: int)
    ensures ShippedEof(pointer)
    ensures ShippedSeek(pointer, offset, whence) == (false, pointer)
  {
  }

  /** A concrete case: after opening `omega-serializable-closure://1`, the content is 15 characters
      long and the pointer is 0, so eof() should be false and seek(0, SEEK_SET) should succeed, but
      as written eof() is true and the seek fails. */
  lemma ShippedStreamCounterexample()
    ensures SourceFor(ProtoPrefix + "1") == "<?php\nreturn 1;"
    ensures |SourceFor(ProtoPrefix + "1")| == 15
    ensures 0 < |SourceFor(ProtoPrefix + "1")| && 0 <= SeekTarget(0, 15, 0, SEEK_SET) < 15
    ensures ShippedEof(0) && ShippedSeek(0, 0, SEEK_SET) == (false, 0)
  {
  }
}
