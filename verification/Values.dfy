/** The severities of level.go. A Level is an integer, so values outside the named range exist too. */
module Levels {
  import opened Bytes

  type Level = int

  const TRACE: Level := 0
  const DEBUG: Level := 1
  const INFO: Level := 2
  const WARNING: Level := 3
  const ERROR: Level := 4
  const FATAL: Level := 5

  /** Level.String. */
  function Name(l: Level): bytes {
    if l == TRACE then B("TRACE") else if l == DEBUG then B("DEBUG") else if l == INFO then B("INFO")
    else if l == WARNING then B("WARNING") else if l == ERROR then B("ERROR") else if l == FATAL then B("FATAL")
    else B("UNKNOWN")
  }

  /** The switch at the end of extractLevel: anything that is not a level name counts as INFO. */
  function FromName(s: bytes): Level {
    if s == B("TRACE") then TRACE else if s == B("DEBUG") then DEBUG else if s == B("INFO") then INFO
    else if s == B("WARNING") then WARNING else if s == B("ERROR") then ERROR else if s == B("FATAL") then FATAL
    else INFO
  }

  /** The filter's switch reads back what Level.String wrote; an out-of-range level comes back as INFO. */
  lemma FromNameOfName(l: Level)
    ensures FromName(Name(l)) == if TRACE <= l <= FATAL then l else INFO
  {
    assert B("DEBUG")[0] != B("TRACE")[0] && B("ERROR")[0] != B("TRACE")[0] && B("ERROR")[0] != B("DEBUG")[0];
    assert B("FATAL")[0] != B("TRACE")[0] && B("FATAL")[0] != B("DEBUG")[0] && B("FATAL")[0] != B("ERROR")[0];
    assert B("UNKNOWN")[0] != B("WARNING")[0];
  }

  /** The level names from the lowest to the highest. */
  function NamesInOrder(): (names: seq<bytes>)
    ensures |names| == 6
  {
    [B("TRACE"), B("DEBUG"), B("INFO"), B("WARNING"), B("ERROR"), B("FATAL")]
  }

  /** A level is the position of its name, which is also what the filter reads; other levels have no name of their own. */
  lemma NamedInOrder(l: Level)
    ensures 0 <= l < 6 ==> Name(l) == NamesInOrder()[l] && FromName(NamesInOrder()[l]) == l
    ensures l < 0 || l >= 6 ==> Name(l) == B("UNKNOWN")
  {
    FromNameOfName(l);
  }

  /** Names are letters only: no quote, no backslash, no control byte. */
  predicate IsName(s: bytes) {
    s in {B("TRACE"), B("DEBUG"), B("INFO"), B("WARNING"), B("ERROR"), B("FATAL")}
  }

  lemma NamesAreLetters(s: bytes)
    requires IsName(s)
    ensures forall b | b in s :: 0x41 <= b <= 0x5A
  {
  }

  lemma NotANameIsInfo(s: bytes)
    ensures !IsName(s) ==> FromName(s) == INFO
  {
  }
}

/** The values a log entry can hold, as far as the printers distinguish them. */
module Values {
  import opened Bytes

  /**
   An `any` in an entry map. Every Go integer width is an `Int`; `Error` keeps an error's message,
   the name of its concrete type and the messages met while unwrapping it.
   */
  datatype Value =
    | Null
    | Str(s: bytes)
    | Bool(b: bool)
    | Int(n: int)
    | Error(msg: bytes, typeName: bytes, unwrapped: seq<bytes>)
    | Strs(ss: seq<bytes>)
    | List(vs: seq<Value>)
    | Map(m: map<bytes, Value>)

  type Fields = map<bytes, Value>
}
