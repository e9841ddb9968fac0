/** Picking an airport's IATA code out of a free-text answer
    (`_RE_IATA` and the row loop of `_main`, extract_iata.py). The word
    tokenizer is a parameter: the model says nothing about how text is cut
    into tokens. */
module ExtractIata {
  import opened PyStr
  import opened Wrappers

  predicate IsUpperAscii(c: char) {
    'A' <= c <= 'Z'
  }

  /** `re.match(r"^[A-Z]{3}$", t)`: three capital letters from the start,
      then `$`, which holds at the end of the text and also just before a
      final line break. */
  predicate MatchesIata(t: string) {
    && |t| >= 3
    && IsUpperAscii(t[0]) && IsUpperAscii(t[1]) && IsUpperAscii(t[2])
    && (|t| == 3 || (|t| == 4 && t[3] == '\n'))
  }

  /** A token without a line break matches exactly when it is three capital
      letters. */
  lemma MatchIsThreeCapitals(t: string)
    requires '\n' !in t
    ensures MatchesIata(t) <==> |t| == 3 && forall i :: 0 <= i < 3 ==> IsUpperAscii(t[i])
  {
    if |t| == 4 {
      assert t[3] in t;
    }
  }

  /** The tokens that are never taken as an airport code, line 30. */
  const DenyList: seq<string> := ["USA", "ETH", "IIT", "BJR", "LRC", "MBA", "ROT"]

  /** The codes left after lines 27-31: matching tokens of the response that
      are neither a token of the upper-cased domain nor in the deny list. */
  function Candidates(response: string, domain: string, tokenize: string -> seq<string>): (c: set<string>)
  {
    var found := set t | t in tokenize(response) && MatchesIata(t);
    found - (set t | t in tokenize(Upper(domain)) + DenyList)
  }

  /** Each candidate is a matching token of the response and none of the
      excluded ones. */
  lemma CandidateIsAllowedCode(response: string, domain: string, tokenize: string -> seq<string>, t: string)
    ensures t in Candidates(response, domain, tokenize) <==>
              && t in tokenize(response) && MatchesIata(t)
              && t !in tokenize(Upper(domain)) && t !in DenyList
  {
  }

  /** The deny list wins over the response. */
  lemma DenyListNeverPicked(response: string, domain: string, tokenize: string -> seq<string>)
    ensures forall t :: t in DenyList ==> t !in Candidates(response, domain, tokenize)
  {
  }

  /** Only the set of tokens counts: their order and repetition do not. */
  lemma CandidatesIgnoreOrder(r1: string, r2: string, domain: string, tokenize: string -> seq<string>)
    requires forall t :: t in tokenize(r1) <==> t in tokenize(r2)
    ensures Candidates(r1, domain, tokenize) == Candidates(r2, domain, tokenize)
  {
  }

  /** What line 32 writes for a candidate set `c`: "" when it is empty,
      otherwise one of its members. */
  ghost predicate IsPick(c: set<string>, airport: string) {
    && (airport == "" <==> c == {})
    && (airport != "" ==> airport in c)
  }

  /** `list(s)`: the members of the set in some order, each once. */
  method ListOfSet(s: set<string>) returns (xs: seq<string>)
    ensures |xs| == |s|
    ensures forall x :: x in xs <==> x in s
  {
    xs := [];
    var rest := s;
    while rest != {}
      invariant forall x :: x in xs <==> x in s && x !in rest
      invariant rest <= s
      invariant |xs| + |rest| == |s|
      decreases |rest|
    {
      var x :| x in rest;
      xs := xs + [x];
      rest := rest - {x};
    }
  }

  /** The body of the row loop, lines 27-32. */
  method PickAirport(response: string, domain: string, tokenize: string -> seq<string>)
    returns (airport: string)
    ensures IsPick(Candidates(response, domain, tokenize), airport)
    ensures '|' !in airport
    ensures airport != "" ==> |airport| >= 3 && IsUpperAscii(airport[0])
  {
    var airports := set t | t in tokenize(response) && MatchesIata(t);
    airports := airports - (set t | t in tokenize(Upper(domain)) + DenyList);
    var listed := ListOfSet(airports);
    var last := LastN(listed, 1);
    airport := Join("|", last);
    if listed != [] {
      assert airport == listed[|listed| - 1];
      assert airport in airports;
    }
  }

  /** A row of the data frame; `other` stands for the remaining columns. */
  datatype Row = Row(response: string, domain: string, airport: Option<string>, other: seq<string>)


  /** The loop of lines 26-32: every row gets an airport picked from its own
      response and domain, and nothing else in the frame changes. */
  method ExtractAirports(frame: array<Row>, tokenize: string -> seq<string>)
    modifies frame
    ensures forall i :: 0 <= i < frame.Length ==>
              && frame[i].response == old(frame[i].response)
              && frame[i].domain == old(frame[i].domain)
              && frame[i].other == old(frame[i].other)
              && frame[i].airport.Some?
              && IsPick(Candidates(frame[i].response, frame[i].domain, tokenize), frame[i].airport.value)
  {
    var i := 0;
    while i < frame.Length
      invariant 0 <= i <= frame.Length
      invariant forall k :: 0 <= k < frame.Length ==>
                  && frame[k].response == old(frame[k].response)
                  && frame[k].domain == old(frame[k].domain)
                  && frame[k].other == old(frame[k].other)
      invariant forall k :: 0 <= k < i ==>
                  && frame[k].airport.Some?
                  && IsPick(Candidates(frame[k].response, frame[k].domain, tokenize), frame[k].airport.value)
    {
      var row := frame[i];
      var airport := PickAirport(row.response, row.domain, tokenize);
      frame[i] := row.(airport := Some(airport));
      i := i + 1;
    }
  }
}
