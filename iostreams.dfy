/**
 * The two pieces of the C++ iostream library that the loader relies on, at the level of
 * detail that decides its results:
 *  - formatted extraction of a double, `in >> x`, seen as a walk over whitespace-separated
 *    tokens, each of which either reads as a number or does not;
 *  - `std::getline`, seen as a walk over characters that stops after each '\n'.
 * Both keep the stream's eofbit and failbit; a stream is good when neither is set.
 */
module IoStreams {

  datatype Option<T> = None | Some(value: T)

  /** A whitespace-separated token as `>>` for a double meets it. */
  datatype Token = Num(value: real) | NotNum

  /**
   * A stream read with `>>`: the tokens of its text, whether the text ends directly after the
   * last token (no trailing whitespace or newline), the index of the next token, and the flags.
   */
  datatype InStream = InStream(tokens: seq<Token>, endsInToken: bool, pos: nat, eof: bool, fail: bool)

  predicate Good(s: InStream)
  {
    !s.eof && !s.fail
  }

  /** Number of leading tokens that read as numbers: how far `>>` gets before it fails. */
  function NumericPrefix(ts: seq<Token>): (n: nat)
    ensures n <= |ts|
    ensures forall k :: 0 <= k < n ==> ts[k].Num?
    ensures n < |ts| ==> ts[n] == NotNum
  {
    if ts == [] || ts[0] == NotNum then 0 else 1 + NumericPrefix(ts[1..])
  }

  /** The values of the leading numeric tokens, in order. */
  function Numbers(ts: seq<Token>): (vs: seq<real>)
    ensures |vs| == NumericPrefix(ts)
    ensures forall k :: 0 <= k < |vs| ==> ts[k] == Num(vs[k])
  {
    if ts == [] || ts[0] == NotNum then [] else [ts[0].value] + Numbers(ts[1..])
  }

  /**
   * `s >> x` for a double x: the new stream and the value stored, if any. A stream that is not
   * good fails at once; otherwise whitespace is skipped, and running out of text sets eofbit and
   * failbit, a token that is not a number sets failbit, and a number is consumed; eofbit is then
   * set when the text ends directly after it.
   */
  function Extract(s: InStream): (InStream, Option<real>)
  {
    if !Good(s) then (s.(fail := true), None)
    else if s.pos >= |s.tokens| then (s.(eof := true, fail := true), None)
    else match s.tokens[s.pos]
      case NotNum => (s.(fail := true), None)
      case Num(v) => (s.(pos := s.pos + 1, eof := s.pos + 1 == |s.tokens| && s.endsInToken), Some(v))
  }

  /** A stream read with `std::getline`: the characters of its text, the next index and the flags. */
  datatype LineStream = LineStream(text: seq<char>, pos: nat, eof: bool, fail: bool)

  /** Index of the first '\n' at or after `from`, or |text| when there is none. */
  function NextNewline(text: seq<char>, from: nat): (q: nat)
    requires from <= |text|
    ensures from <= q <= |text|
    ensures forall k :: from <= k < q ==> text[k] != '\n'
    ensures q < |text| ==> text[q] == '\n'
    decreases |text| - from
  {
    if from == |text| || text[from] == '\n' then from else NextNewline(text, from + 1)
  }

  /**
   * `std::getline(s, line)`; the line itself is not modelled. A stream that is not good fails;
   * at end of text nothing is extracted, which sets eofbit and failbit; otherwise the line and its
   * '\n' are consumed, and a last line without '\n' sets eofbit only.
   */
  function GetLine(s: LineStream): LineStream
    requires s.pos <= |s.text|
  {
    if s.eof || s.fail then s.(fail := true)
    else if s.pos == |s.text| then s.(eof := true, fail := true)
    else
      var q := NextNewline(s.text, s.pos);
      if q < |s.text| then s.(pos := q + 1) else s.(pos := q, eof := true)
  }
}
