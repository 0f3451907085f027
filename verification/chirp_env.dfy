/**
 Building the machine-token verifier from the environment: the issuer fallback and the
 comma-separated allowlist. What `ChirpAuthConfig` makes of the issuer is not part of this model.
 */
module ChirpEnv {
  import opened Wrappers
  import opened Text

  /** A set environment variable; `std::env::var` refuses one that is not Unicode. */
  datatype EnvValue = Unicode(text: string) | NotUnicode

  type Environment = map<string, EnvValue>

  datatype MachineAuth = MachineAuth(issuer: string, acceptedClientIds: set<string>)

  /** `std::env::var(name).ok()`. */
  function Var(env: Environment, name: string): Option<string> {
    if name in env && env[name].Unicode? then Some(env[name].text) else None
  }

  // ---- Splitting and joining ----------------------------------------------------------

  /** `str::split(',')`: the text before, between and after the commas. */
  function Split(s: string): (pieces: seq<string>)
    ensures pieces != []
  {
    if s == "" then [""]
    else if s[0] == ',' then [""] + Split(s[1..])
    else var rest := Split(s[1..]); [[s[0]] + rest[0]] + rest[1..]
  }

  function Join(pieces: seq<string>): string
    requires pieces != []
  {
    if |pieces| == 1 then pieces[0] else pieces[0] + "," + Join(pieces[1..])
  }

  ghost predicate CommaFree(pieces: seq<string>) {
    forall i :: 0 <= i < |pieces| ==> ',' !in pieces[i]
  }

  lemma {:induction false} SplitOfComma(piece: string, rest: string)
    requires ',' !in piece
    ensures Split(piece + "," + rest) == [piece] + Split(rest)
  {
    var s := piece + "," + rest;
    if piece == "" {
      assert s[1..] == rest;
    } else {
      assert s[1..] == piece[1..] + "," + rest;
      SplitOfComma(piece[1..], rest);
      assert piece == [piece[0]] + piece[1..];
    }
  }

  lemma {:induction false} SplitOfPlain(piece: string)
    requires ',' !in piece
    ensures Split(piece) == [piece]
  {
    if piece != "" {
      SplitOfPlain(piece[1..]);
      assert piece == [piece[0]] + piece[1..];
    }
  }

  /** Splitting undoes joining comma-free pieces. */
  lemma {:induction false} SplitJoin(pieces: seq<string>)
    requires pieces != [] && CommaFree(pieces)
    ensures Split(Join(pieces)) == pieces
  {
    if |pieces| == 1 {
      SplitOfPlain(pieces[0]);
      assert pieces == [pieces[0]];
    } else {
      SplitJoin(pieces[1..]);
      SplitOfComma(pieces[0], Join(pieces[1..]));
      assert pieces == [pieces[0]] + pieces[1..];
    }
  }

  /** Joining undoes splitting, and the pieces hold no comma: `Split` is the inverse of `Join`. */
  lemma {:induction false} JoinSplit(s: string)
    ensures CommaFree(Split(s)) && Join(Split(s)) == s
  {
    if s != "" {
      JoinSplit(s[1..]);
      var rest := Split(s[1..]);
      assert s == [s[0]] + s[1..];
      if s[0] == ',' {
        assert Split(s)[1..] == rest;
      } else {
        assert Split(s)[0] == [s[0]] + rest[0] && Split(s)[1..] == rest[1..];
      }
    }
  }

  // ---- The allowlist --------------------------------------------------------------------

  /** `map(trim).filter(!empty)` over a list. */
  function Cleaned(ids: seq<string>): seq<string> {
    if ids == [] then []
    else (if Trim(ids[0]) == "" then [] else [Trim(ids[0])]) + Cleaned(ids[1..])
  }

  /** `MachineAuth::new`. */
  function New(issuer: string, clientIds: seq<string>): MachineAuth {
    MachineAuth(issuer, set id | id in Cleaned(clientIds))
  }

  /** `find_map` over the issuer variables: the first that is set and Unicode. */
  function FirstVar(env: Environment, names: seq<string>): Option<string> {
    if names == [] then None
    else if Var(env, names[0]).Some? then Var(env, names[0])
    else FirstVar(env, names[1..])
  }

  /** `MachineAuth::from_env`. */
  function FromEnv(env: Environment, issuerVars: seq<string>, audiencesVar: string): Option<MachineAuth> {
    FromIssuer(env, FirstVar(env, issuerVars), audiencesVar)
  }

  /** The rest of `from_env`, once an issuer value is chosen. */
  function FromIssuer(env: Environment, issuer: Option<string>, audiencesVar: string): Option<MachineAuth> {
    if issuer.None? || Trim(issuer.value) == "" then None
    else if Var(env, audiencesVar).None? then None
    else
      var audiences := Cleaned(Split(Var(env, audiencesVar).value));
      if audiences == [] then None else Some(New(Trim(issuer.value), audiences))
  }

  // ---- Laws -----------------------------------------------------------------------------------

  /** The nonempty ids that occur, padded, in a list. */
  ghost predicate OccursPadded(id: string, raws: seq<string>) {
    IsTrimmed(id) && id != "" && exists i :: 0 <= i < |raws| && IsPadded(raws[i], id)
  }

  lemma {:induction false} CleanedExact(raws: seq<string>, id: string)
    ensures id in Cleaned(raws) <==> OccursPadded(id, raws)
  {
    if raws != [] {
      var rest := raws[1..];
      CleanedExact(rest, id);
      TrimExact(raws[0], id);
      assert OccursPadded(id, raws) <==>
             (id != "" && Trim(raws[0]) == id) || OccursPadded(id, rest) by {
        if i :| 0 <= i < |rest| && IsPadded(rest[i], id) {
          assert raws[i + 1] == rest[i];
        }
        if i :| 0 <= i < |raws| && IsPadded(raws[i], id) {
          assert i == 0 || rest[i - 1] == raws[i];
        }
      }
    }
  }

  /** The verifier for a list: the issuer as given, and exactly the nonempty ids that occur padded. */
  lemma NewExact(issuer: string, clientIds: seq<string>, m: MachineAuth)
    ensures m == New(issuer, clientIds) <==>
      m.issuer == issuer && forall id :: id in m.acceptedClientIds <==> OccursPadded(id, clientIds)
  {
    forall id ensures id in New(issuer, clientIds).acceptedClientIds <==> OccursPadded(id, clientIds) {
      CleanedExact(clientIds, id);
    }
  }

  /** The second trim and filter, inside `new`, change nothing that `from_env` cleaned. */
  lemma {:induction false} CleaningIsIdempotent(ids: seq<string>)
    ensures Cleaned(Cleaned(ids)) == Cleaned(ids)
  {
    if ids != [] {
      CleaningIsIdempotent(ids[1..]);
      TrimIsTrimmed(ids[0]);
      if Trim(ids[0]) != "" {
        assert Cleaned(ids)[1..] == Cleaned(ids[1..]);
      } else {
        assert Cleaned(ids) == Cleaned(ids[1..]);
      }
    }
  }

  /** The environment holds this text under the name. */
  ghost predicate Holds(env: Environment, name: string, text: string) {
    name in env && env[name] == Unicode(text)
  }

  /** The issuer variable that decides: all earlier ones are unset or not Unicode. */
  ghost predicate Decides(env: Environment, names: seq<string>, k: int, text: string) {
    && 0 <= k < |names| && Holds(env, names[k], text)
    && forall j :: 0 <= j < k ==> names[j] !in env || env[names[j]] == NotUnicode
  }

  lemma {:induction false} FirstVarExact(env: Environment, names: seq<string>, text: string)
    ensures FirstVar(env, names) == Some(text) <==> exists k :: Decides(env, names, k, text)
  {
    if names != [] {
      var rest := names[1..];
      FirstVarExact(env, rest, text);
      if k :| Decides(env, rest, k, text) {
        if Var(env, names[0]).None? {
          assert forall j :: 0 < j <= k ==> names[j] == rest[j - 1];
          assert Decides(env, names, k + 1, text);
        }
      }
      if Var(env, names[0]) == Some(text) {
        assert Decides(env, names, 0, text);
      }
      if k :| Decides(env, names, k, text) {
        if k > 0 {
          assert forall j :: 0 <= j < k - 1 ==> rest[j] == names[j + 1];
          assert Var(env, names[0]).None?;
          assert Decides(env, rest, k - 1, text);
        }
      }
    }
  }

  /**
   A verifier results exactly when the deciding issuer variable is not blank (a blank one is not
   passed over) and some id occurs in the list; it accepts exactly the ids that occur.
   */
  lemma FromEnvExact(env: Environment, issuerVars: seq<string>, audiencesVar: string, m: MachineAuth)
    ensures FromEnv(env, issuerVars, audiencesVar) == Some(m) <==>
      && m.issuer != "" && IsTrimmed(m.issuer) && m.acceptedClientIds != {}
      && (exists k, raw :: Decides(env, issuerVars, k, raw) && IsPadded(raw, m.issuer))
      && exists list :: Holds(env, audiencesVar, list)
                        && forall id :: id in m.acceptedClientIds <==> OccursPadded(id, Split(list))
  {
    IssuerReading(env, issuerVars, m.issuer);
    if Var(env, audiencesVar).Some? {
      AllowlistReading(Var(env, audiencesVar).value, m.acceptedClientIds);
    }
  }

  lemma IssuerReading(env: Environment, names: seq<string>, issuer: string)
    ensures IsTrimmed(issuer) && (exists k, raw :: Decides(env, names, k, raw) && IsPadded(raw, issuer)) <==>
            FirstVar(env, names).Some? && Trim(FirstVar(env, names).value) == issuer
  {
    if IsTrimmed(issuer) && exists k, raw :: Decides(env, names, k, raw) && IsPadded(raw, issuer) {
      var k, raw :| Decides(env, names, k, raw) && IsPadded(raw, issuer);
      FirstVarExact(env, names, raw);
      TrimExact(raw, issuer);
    }
    if FirstVar(env, names).Some? && Trim(FirstVar(env, names).value) == issuer {
      var raw := FirstVar(env, names).value;
      FirstVarExact(env, names, raw);
      TrimExact(raw, issuer);
    }
  }

  lemma AllowlistReading(text: string, accepted: set<string>)
    ensures var audiences := Cleaned(Split(text));
      audiences != [] && accepted == New("", audiences).acceptedClientIds <==>
      accepted != {} && forall id :: id in accepted <==> OccursPadded(id, Split(text))
  {
    var audiences := Cleaned(Split(text));
    CleaningIsIdempotent(Split(text));
    forall id ensures id in audiences <==> OccursPadded(id, Split(text)) {
      CleanedExact(Split(text), id);
    }
    var ids := set id | id in audiences;
    assert audiences != [] ==> audiences[0] in ids;
  }

  // ---- Against the documentation -----------------------------------------------------------------

  /** The documented choice: the first variable whose value is not blank. */
  function FirstNonblank(env: Environment, names: seq<string>): Option<string> {
    if names == [] then None
    else if Var(env, names[0]).Some? && Trim(Var(env, names[0]).value) != "" then Var(env, names[0])
    else FirstNonblank(env, names[1..])
  }

  /** Some variable has a value that is not blank. */
  ghost predicate HasNonblank(env: Environment, names: seq<string>) {
    exists k :: 0 <= k < |names| && Var(env, names[k]).Some? && !IsBlank(Var(env, names[k]).value)
  }

  lemma {:induction false} FirstNonblankExact(env: Environment, names: seq<string>)
    ensures FirstNonblank(env, names).Some? <==> HasNonblank(env, names)
    ensures FirstNonblank(env, names).Some? ==> Trim(FirstNonblank(env, names).value) != ""
    ensures FirstVar(env, names).None? ==> FirstNonblank(env, names).None?
    ensures FirstVar(env, names).Some? && Trim(FirstVar(env, names).value) != "" ==>
              FirstNonblank(env, names) == FirstVar(env, names)
  {
    if names != [] {
      var rest := names[1..];
      FirstNonblankExact(env, rest);
      if Var(env, names[0]).Some? {
        BlankTrims(Var(env, names[0]).value);
      }
      if k :| 0 <= k < |rest| && Var(env, rest[k]).Some? && !IsBlank(Var(env, rest[k]).value) {
        assert names[k + 1] == rest[k];
      }
      if k :| 0 <= k < |names| && Var(env, names[k]).Some? && !IsBlank(Var(env, names[k]).value) {
        assert k == 0 || rest[k - 1] == names[k];
      }
    }
  }

  /** The deciding variable is blank, although a later one and the allowlist would do. */
  ghost predicate BlankDecides(env: Environment, issuerVars: seq<string>, audiencesVar: string) {
    && (exists k, raw :: Decides(env, issuerVars, k, raw) && IsBlank(raw))
    && HasNonblank(env, issuerVars)
    && Var(env, audiencesVar).Some?
    && exists id :: OccursPadded(id, Split(Var(env, audiencesVar).value))
  }

  /**
   The code and the documented choice of the first variable that is not blank give the same result
   on all environments but those where a blank variable decides; there the code gives none.
   */
  lemma IssuerDocumentationExact(env: Environment, issuerVars: seq<string>, audiencesVar: string)
    ensures FromEnv(env, issuerVars, audiencesVar)
            == FromIssuer(env, FirstNonblank(env, issuerVars), audiencesVar)
            <==> !BlankDecides(env, issuerVars, audiencesVar)
    ensures BlankDecides(env, issuerVars, audiencesVar) ==>
            FromEnv(env, issuerVars, audiencesVar).None?
  {
    FirstNonblankExact(env, issuerVars);
    BlankDecision(env, issuerVars);
    if Var(env, audiencesVar).Some? {
      SomeIdOccurs(Var(env, audiencesVar).value);
    }
  }

  lemma BlankDecision(env: Environment, names: seq<string>)
    ensures (exists k, raw :: Decides(env, names, k, raw) && IsBlank(raw)) <==>
            FirstVar(env, names).Some? && Trim(FirstVar(env, names).value) == ""
  {
    if k, raw :| Decides(env, names, k, raw) && IsBlank(raw) {
      FirstVarExact(env, names, raw);
      BlankTrims(raw);
    }
    if FirstVar(env, names).Some? {
      var raw := FirstVar(env, names).value;
      FirstVarExact(env, names, raw);
      BlankTrims(raw);
    }
  }

  lemma SomeIdOccurs(text: string)
    ensures Cleaned(Split(text)) != [] <==> exists id :: OccursPadded(id, Split(text))
  {
    var audiences := Cleaned(Split(text));
    forall id ensures id in audiences <==> OccursPadded(id, Split(text)) {
      CleanedExact(Split(text), id);
    }
    if audiences != [] {
      assert OccursPadded(audiences[0], Split(text));
    }
  }

  /** An environment where they differ: a blank first variable, a second one, and one id. */
  lemma BlankPrimaryStaysOff()
    ensures var env := map["A" := Unicode(" "), "B" := Unicode("i"), "C" := Unicode("x")];
            && FromEnv(env, ["A", "B"], "C") == None
            && FromIssuer(env, FirstNonblank(env, ["A", "B"]), "C") == Some(MachineAuth("i", {"x"}))
  {
    var env := map["A" := Unicode(" "), "B" := Unicode("i"), "C" := Unicode("x")];
    assert "A" in env && "B" in env && "C" in env;
    BlankTrims(" ");
    TrimOfTrimmed("i");
    TrimOfTrimmed("x");
    assert FirstVar(env, ["A", "B"]) == Some(" ");
    assert ["A", "B"][1..] == ["B"];
    assert FirstNonblank(env, ["B"]) == Some("i");
    SplitOfPlain("x");
    assert ["x"][1..] == [] && Cleaned(["x"]) == ["x"];
    assert (set id | id in Cleaned(["x"])) == {"x"};
  }

  /**
   Reading back a printed list: for comma-free entries, each an id with padding or a blank, the
   verifier built from their join accepts exactly the ids printed.
   */
  lemma FromEnvReadsJoin(env: Environment, issuerVars: seq<string>, audiencesVar: string,
                         raws: seq<string>, issuer: string)
    requires FirstVar(env, issuerVars).Some? && Trim(FirstVar(env, issuerVars).value) == issuer != ""
    requires raws != [] && CommaFree(raws) && Var(env, audiencesVar) == Some(Join(raws))
    ensures var ids := set i | 0 <= i < |raws| && Trim(raws[i]) != "" :: Trim(raws[i]);
            FromEnv(env, issuerVars, audiencesVar) ==
            if ids == {} then None else Some(MachineAuth(issuer, ids))
  {
    var ids := set i | 0 <= i < |raws| && Trim(raws[i]) != "" :: Trim(raws[i]);
    SplitJoin(raws);
    CleaningIsIdempotent(raws);
    var audiences := Cleaned(raws);
    forall id ensures id in audiences <==> id in ids {
      CleanedExact(raws, id);
      forall i | 0 <= i < |raws| ensures Trim(raws[i]) == id <==> IsTrimmed(id) && IsPadded(raws[i], id) {
        TrimExact(raws[i], id);
      }
    }
    assert (set id | id in audiences) == ids;
    assert audiences != [] ==> audiences[0] in ids;
    assert audiences == [] ==> ids == {};
  }
}
