/** The generator as a whole: refuse, or emit a ruleset that means the configuration. */
module Generator {
  import opened Sequences
  import opened Nft
  import opened GatewayConfig
  import opened FilterSets
  import opened ForwardChain
  import opened ForwardMeaning
  import opened InputChain
  import opened InputMeaning
  import opened NatTable
  import opened NatMeaning
  import opened SetClosure

  datatype Ruleset = Ruleset(sets: seq<SetDecl>, input: seq<Rule>, forwardRules: seq<Rule>,
                             prerouting: seq<Rule>, postrouting: seq<Rule>)

  /** Both filter chains and both translations do what the configuration says, on every packet, and no set is
      declared twice. */
  ghost predicate Implements(r: Ruleset, c: Config) {
    && (forall p :: Run(r.forwardRules, Drop, r.sets, p) == Policy(c, p))
    && (forall p :: Run(r.input, Drop, r.sets, p) == InputPolicy(c, p))
    && (forall p :: ArrivesAs(c, p, Rewrite(Decide(r.prerouting, [], p), p)))
    && (forall p :: LeavesAs(c, p, Decide(r.postrouting, [], p)))
    && OneEach(r.sets)
  }

  lemma EmittedRulesetImplements(c: Config)
    requires Valid(c)
    ensures Implements(Ruleset(Sets(c), InputRules(c), ForwardRules(c), PreroutingRules(c), PostroutingRules(c)), c)
  {
    forall p ensures Run(ForwardRules(c), Drop, Sets(c), p) == Policy(c, p) {
      ForwardChainMeansPolicy(c, p);
    }
    forall p ensures Run(InputRules(c), Drop, Sets(c), p) == InputPolicy(c, p) {
      InputChainMeansPolicy(c, p);
    }
    forall p ensures ArrivesAs(c, p, Rewrite(Decide(PreroutingRules(c), [], p), p)) {
      PreroutingMeansPolicy(c, p);
    }
    forall p ensures LeavesAs(c, p, Decide(PostroutingRules(c), [], p)) {
      PostroutingMeansPolicy(c, p);
    }
    SetsAreDeclaredOnce(c);
  }

  method Generate(c: Config) returns (r: Option<Ruleset>)
    ensures r.Some? <==> Valid(c)
    ensures r.Some? ==> Implements(r.value, c)
    ensures r.Some? ==> r.value.prerouting == PreroutingRules(c) && r.value.postrouting == PostroutingRules(c)
  {
    var ok := Validate(c);
    if !ok {
      return None;
    }
    var sets := DeclareSets(c);
    var input := EmitInputChain(c);
    var forwardRules := EmitForwardChain(c);
    var pre := EmitPrerouting(c);
    var post := EmitPostrouting(c);
    EmittedRulesetImplements(c);
    r := Some(Ruleset(sets, input, forwardRules, pre, post));
  }
}
