/** The tokens that the flex scanner hands to the aggregator in
    1-regexes/histogram_main.cpp. In the C++ program `yylex()` returns the tag
    and the payload is read from the global `yylval`; here every pull yields
    one value that carries its tag and its payload together. */
module Tokens {

  datatype Option<+T> = None | Some(value: T)

  /** The heap string the scanner allocates for a WORD token: `address` is the
      identity of the `std::string*`, `text` the characters it points to. */
  datatype WordRef = WordRef(address: nat, text: string)

  /** NONE, NUMBER and WORD, the only three tags of `TokenType`. A WORD's
      pointer may be null, which is `None` here. */
  datatype Token =
    | End
    | Number(value: real)
    | Word(payload: Option<WordRef>)

  /** Index of the first `End` of the stream: the token at which the
      consumption loop stops. */
  function FirstEnd(tokens: seq<Token>): (k: nat)
    requires End in tokens
    ensures k < |tokens| && tokens[k] == End
    ensures End !in tokens[..k]
  {
    if tokens[0] == End then 0
    else
      assert End in tokens[1..];
      var k := 1 + FirstEnd(tokens[1..]);
      assert tokens[..k] == [tokens[0]] + tokens[1..][..k - 1];
      k
  }

  /** The tokens the loop acts on: everything before the first `End`. */
  function Drained(tokens: seq<Token>): (prefix: seq<Token>)
    requires End in tokens
    ensures End !in prefix
    ensures prefix + [End] <= tokens
  {
    tokens[..FirstEnd(tokens)]
  }
}
