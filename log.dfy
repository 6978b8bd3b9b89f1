/**
 * The debug log of `log.c`: a stack of the 20 most recent messages, each
 * kept in a slot of 256 characters.  `ptr` is the slot the next message
 * goes to and `size` how many messages are retained; once 20 are, a push
 * overwrites the slot of the oldest.
 */
module Log {
  import opened Wrappers

  /** `FTGL_LOG_STACK_CAPACITY`. */
  const StackCapacity: nat := 20

  /** `FTGL_LOG_MESSAGE_CAPACITY`: 255 characters and the terminating NUL. */
  const MessageCapacity: nat := 256

  /** The character `i` of a C string given by its characters: NUL past the end. */
  function CharAt(s: seq<char>, i: nat): char
  {
    if i < |s| then s[i] else '\0'
  }

  /** The C string starting a character buffer: everything before its first NUL. */
  function CString(s: seq<char>): (c: seq<char>)
    ensures '\0' !in c && c <= s
    ensures |c| < |s| ==> s[|c|] == '\0'
  {
    if |s| == 0 || s[0] == '\0' then [] else [s[0]] + CString(s[1..])
  }

  /** What a push stores of a message: the C string, cut to 255 characters. */
  function Truncated(msg: seq<char>): seq<char>
  {
    var c := CString(msg);
    if |c| <= MessageCapacity - 1 then c else c[..MessageCapacity - 1]
  }

  /** A stored message fits its slot with the NUL, has no NUL itself, and starts the original. */
  lemma TruncatedFits(msg: seq<char>)
    ensures |Truncated(msg)| <= MessageCapacity - 1
    ensures '\0' !in Truncated(msg) && Truncated(msg) <= msg
    ensures '\0' !in msg && |msg| <= MessageCapacity - 1 ==> Truncated(msg) == msg
  {
    var c := CString(msg);
    assert |c| < |msg| ==> msg[|c|] in msg;
  }

  /** The copy loop's stopping point: `i` non-NUL characters, then a NUL or the 255-character cap. */
  lemma CopyStop(msg: seq<char>, i: nat)
    requires forall m :: 0 <= m < i ==> CharAt(msg, m) != '\0'
    requires CharAt(msg, i) == '\0' || i == MessageCapacity - 1
    requires i <= MessageCapacity - 1
    ensures i <= |msg| && Truncated(msg) == msg[..i]
  {
    var c := CString(msg);
    assert |c| < i ==> CharAt(msg, |c|) == '\0';
    assert |c| > i ==> c[i] == msg[i] && c[i] in c;
  }

  /** A NUL-terminated string at the start of a buffer is what the buffer holds as a C string. */
  lemma {:induction false} CStringOfTerminated(t: seq<char>, rest: seq<char>)
    requires '\0' !in t
    ensures CString(t + ['\0'] + rest) == t
  {
    if |t| > 0 {
      assert (t + ['\0'] + rest)[1..] == t[1..] + ['\0'] + rest;
      CStringOfTerminated(t[1..], rest);
    }
  }

  /** The retained messages, newest first, after a push. */
  function PushModel(retained: seq<seq<char>>, msg: seq<char>): (r: seq<seq<char>>)
    requires |retained| <= StackCapacity
    ensures |r| == if |retained| < StackCapacity then |retained| + 1 else StackCapacity
  {
    var all := [Truncated(msg)] + retained;
    if |all| <= StackCapacity then all else all[..StackCapacity]
  }

  /**
   * A pop right after a push returns the pushed message as stored; the rest is
   * what was retained before, less the oldest message when the stack was full.
   */
  lemma PushThenPop(retained: seq<seq<char>>, msg: seq<char>)
    requires |retained| <= StackCapacity
    ensures PushModel(retained, msg)[0] == Truncated(msg)
    ensures |retained| < StackCapacity ==> PushModel(retained, msg)[1..] == retained
    ensures |retained| == StackCapacity ==> PushModel(retained, msg)[1..] == retained[..StackCapacity - 1]
  {
    var all := [Truncated(msg)] + retained;
    assert all[1..] == retained;
  }

  /** The stack slot of the message `k` places before the newest, counting back from `ptr`. */
  function Slot(ptr: int, k: nat): (r: nat)
    requires 0 <= ptr < StackCapacity && k < StackCapacity
    ensures r < StackCapacity && r % StackCapacity == (ptr - 1 - k) % StackCapacity
  {
    if ptr - 1 - k >= 0 then ptr - 1 - k else ptr - 1 - k + StackCapacity
  }

  /** `ptr` after a push: one slot on, back to 0 after the last. */
  function Next(ptr: int): (r: int)
    requires 0 <= ptr < StackCapacity
    ensures 0 <= r < StackCapacity && r == (ptr + 1) % StackCapacity
  {
    if ptr + 1 == StackCapacity then 0 else ptr + 1
  }

  /** `ptr` after a pop: one slot back, to the last after 0. */
  function Prev(ptr: int): (r: int)
    requires 0 <= ptr < StackCapacity
    ensures 0 <= r < StackCapacity && r == (ptr - 1) % StackCapacity
  {
    if ptr == 0 then StackCapacity - 1 else ptr - 1
  }

  /** The slots hold the retained messages: message `k` is the C string of the slot `k` places behind `ptr`. */
  ghost predicate Holds(rows: seq<seq<char>>, ptr: int, retained: seq<seq<char>>)
  {
    && |rows| == StackCapacity && 0 <= ptr < StackCapacity && |retained| <= StackCapacity
    && forall k :: 0 <= k < |retained| ==> retained[k] == CString(rows[Slot(ptr, k)])
  }

  /**
   * Writing the stored message and a NUL at the start of slot `ptr` and
   * moving `ptr` on keeps every earlier message, one place further back,
   * except the oldest when all 20 slots were in use.
   */
  lemma PushHolds(rows: seq<seq<char>>, ptr: int, retained: seq<seq<char>>, msg: seq<char>, rest: seq<char>)
    requires Holds(rows, ptr, retained)
    ensures Holds(rows[ptr := Truncated(msg) + ['\0'] + rest], Next(ptr), PushModel(retained, msg))
  {
    var rows' := rows[ptr := Truncated(msg) + ['\0'] + rest];
    var r := PushModel(retained, msg);
    TruncatedFits(msg);
    CStringOfTerminated(Truncated(msg), rest);
    PushThenPop(retained, msg);
    forall k | 0 <= k < |r|
      ensures r[k] == CString(rows'[Slot(Next(ptr), k)])
    {
      if k > 0 {
        assert r[k] == r[1..][k - 1] == retained[k - 1];
        assert Slot(Next(ptr), k) == Slot(ptr, k - 1) != ptr;
      }
    }
  }

  /** Moving `ptr` back takes the newest message off: it is the C string of the slot `ptr` then names. */
  lemma PopHolds(rows: seq<seq<char>>, ptr: int, retained: seq<seq<char>>)
    requires Holds(rows, ptr, retained) && |retained| > 0
    ensures CString(rows[Prev(ptr)]) == retained[0]
    ensures Holds(rows, Prev(ptr), retained[1..])
  {
    assert Slot(ptr, 0) == Prev(ptr);
    forall k | 0 <= k < |retained| - 1
      ensures retained[1..][k] == CString(rows[Slot(Prev(ptr), k)])
    {
      assert Slot(Prev(ptr), k) == Slot(ptr, k + 1);
    }
  }

  /** The static buffers and counters of `log.c`. */
  class LogStack {
    const stack: array2<char>
    var ptr: int
    var size: int
    /** The retained messages, newest first, as C strings. */
    ghost var retained: seq<seq<char>>

    /** The counters are in range and the slots hold the retained messages. */
    ghost predicate Valid()
      reads this, stack
    {
      && stack.Length0 == StackCapacity && stack.Length1 == MessageCapacity
      && 0 <= ptr < StackCapacity && 0 <= size <= StackCapacity
      && |retained| == size
      && Holds(Rows(), ptr, retained)
    }

    /** The characters of every slot. */
    ghost function Rows(): (rows: seq<seq<char>>)
      reads stack
      requires stack.Length0 == StackCapacity && stack.Length1 == MessageCapacity
      ensures |rows| == StackCapacity
    {
      seq(StackCapacity, r requires 0 <= r < StackCapacity reads stack =>
        seq(MessageCapacity, i requires 0 <= i < MessageCapacity reads stack => stack[r, i]))
    }

    /** The zero-initialised static state: empty. */
    constructor ()
      ensures Valid() && fresh(stack) && size == 0 && ptr == 0
      ensures retained == []
    {
      stack := new char[StackCapacity, MessageCapacity]((_, _) => '\0');
      ptr, size := 0, 0;
      retained := [];
    }

    /** `ftgl_log_empty`. */
    function Empty(): (b: bool)
      reads this, stack
      requires Valid()
      ensures b <==> retained == []
    {
      size == 0
    }

    /** `ftgl_log_full`. */
    function Full(): (b: bool)
      reads this, stack
      requires Valid()
      ensures b <==> |retained| == StackCapacity
    {
      size == StackCapacity
    }

    /**
     * `ftgl_log_push_message`: copy at most 255 characters of the message and a
     * NUL into the slot at `ptr`, advance `ptr` modulo 20, and count the message
     * unless the stack is full.  The file and line arguments are unused.
     */
    method Push(msg: seq<char>)
      requires Valid()
      modifies this, stack
      ensures Valid()
      ensures size == if old(size) < StackCapacity then old(size) + 1 else StackCapacity
      ensures ptr == (old(ptr) + 1) % StackCapacity
      ensures retained == PushModel(old(retained), msg)
    {
      if !Full() {
        size := size + 1;
      }
      ghost var rest := CopyMessage(msg);
      PushHolds(old(Rows()), ptr, retained, msg, rest);
      ptr := Next(ptr);
      retained := PushModel(retained, msg);
    }

    /** The copy of a push: the stored message and a NUL at the start of slot `ptr`; no other slot changes. */
    method CopyMessage(msg: seq<char>) returns (ghost rest: seq<char>)
      requires stack.Length0 == StackCapacity && stack.Length1 == MessageCapacity && 0 <= ptr < StackCapacity
      modifies stack
      ensures Rows() == old(Rows())[ptr := Truncated(msg) + ['\0'] + rest]
    {
      var i := CopyChars(msg);
      rest := old(Rows())[ptr][i + 1..];
      assert Rows()[ptr] == Truncated(msg) + ['\0'] + rest;
      forall r | 0 <= r < StackCapacity && r != ptr
        ensures Rows()[r] == old(Rows())[r]
      {
      }
      assert Rows() == old(Rows())[ptr := Truncated(msg) + ['\0'] + rest];
    }

    /** The copy loop: characters up to the first NUL or the 255th, then a NUL, into slot `ptr`. */
    method CopyChars(msg: seq<char>) returns (n: nat)
      requires stack.Length0 == StackCapacity && stack.Length1 == MessageCapacity && 0 <= ptr < StackCapacity
      modifies stack
      ensures n <= MessageCapacity - 1 && n == |Truncated(msg)|
      ensures forall m :: 0 <= m < n ==> stack[ptr, m] == Truncated(msg)[m]
      ensures stack[ptr, n] == '\0'
      ensures forall r, m :: 0 <= r < StackCapacity && 0 <= m < MessageCapacity && (r != ptr || m > n) ==>
                               stack[r, m] == old(stack[r, m])
    {
      var i := 0;
      while CharAt(msg, i) != '\0' && i < MessageCapacity - 1
        invariant i <= MessageCapacity - 1 && i <= |msg|
        invariant forall m :: 0 <= m < i ==> CharAt(msg, m) != '\0'
        invariant forall m :: 0 <= m < i ==> stack[ptr, m] == msg[m]
        invariant forall r, m :: 0 <= r < StackCapacity && 0 <= m < MessageCapacity && (r != ptr || m >= i) ==>
                                   stack[r, m] == old(stack[r, m])
        decreases MessageCapacity - i
      {
        stack[ptr, i] := msg[i];
        i := i + 1;
      }
      stack[ptr, i] := '\0';
      CopyStop(msg, i);
      n := i;
    }

    /**
     * `ftgl_log_pop_message`: the slot holding the newest message, which the C
     * code returns as a pointer to its characters, or `None` for NULL when the
     * stack is empty.
     */
    method Pop() returns (r: Option<nat>)
      requires Valid()
      modifies this
      ensures Valid()
      ensures old(size) == 0 ==> r == None && ptr == old(ptr) && size == 0 && retained == []
      ensures old(size) > 0 ==> && r == Some(ptr) && CString(Rows()[ptr]) == old(retained)[0]
                                && size == old(size) - 1 && ptr == (old(ptr) - 1) % StackCapacity
                                && retained == old(retained)[1..]
    {
      if !Empty() {
        PopHolds(Rows(), ptr, retained);
        size := size - 1;
        ptr := ptr - 1;
        if ptr < 0 {
          ptr := ptr + StackCapacity;
        }
        retained := retained[1..];
        return Some(ptr);
      }
      return None;
    }
  }
}
