/**
 * Importing `bot.py`: its top-level statements run in order, each name must be
 * bound before an expression reads it, and a constructor call fails on the
 * first keyword its `__init__` does not accept. Only the statements that bind
 * or read the names the handlers depend on are modelled.
 */
module Startup {
  import opened Wrappers

  /** The global names involved: the imported classes and the state groups. */
  datatype Name =
    | TripEntryClass | GoogleSheetsClientClass | UsersRepositoryClass | TimeUtilsClass
    | TripStatesGroup | EditStatesGroup | PhotoStatesGroup

  /** The keyword arguments passed at import time or accepted by the constructors. */
  datatype Keyword = ServiceAccountPath | SheetId | SheetName | UsersSheetName | UsersFile | Timezone

  /** A top-level statement, with the line it starts on. */
  datatype Statement =
    | Bind(name: Name, line: nat)
    | Read(name: Name, line: nat)
    | Construct(cls: Name, keywords: seq<Keyword>, line: nat)

  datatype ImportError =
    | NameError(name: Name, line: nat)
    | TypeError(cls: Name, keyword: Keyword, line: nat)

  /** The keyword parameters of each constructor's `__init__`. */
  function Parameters(cls: Name): set<Keyword>
  {
    match cls
    case UsersRepositoryClass => {UsersFile}
    case GoogleSheetsClientClass => {ServiceAccountPath, SheetId, SheetName}
    case TimeUtilsClass => {Timezone}
    case _ => {}
  }

  /** The first keyword of a call that the constructor does not accept. */
  function FirstUnknown(keywords: seq<Keyword>, accepted: set<Keyword>): (r: Option<Keyword>)
    ensures r.None? <==> forall i :: 0 <= i < |keywords| ==> keywords[i] in accepted
    ensures r.Some? ==> r.value in keywords && r.value !in accepted
  {
    if keywords == [] then None
    else if keywords[0] !in accepted then Some(keywords[0])
    else
      var rest := FirstUnknown(keywords[1..], accepted);
      assert forall i :: 1 <= i < |keywords| ==> keywords[i] == keywords[1..][i - 1];
      rest
  }

  /** Running the statements from `bound`: the names bound at the end, or the first error raised. */
  function Run(prog: seq<Statement>, bound: set<Name>): (r: Result<set<Name>, ImportError>)
    decreases |prog|
  {
    if prog == [] then Success(bound)
    else
      match prog[0]
      case Bind(name, _) => Run(prog[1..], bound + {name})
      case Read(name, line) =>
        if name in bound then Run(prog[1..], bound) else Failure(NameError(name, line))
      case Construct(cls, keywords, line) =>
        if cls !in bound then Failure(NameError(cls, line))
        else match FirstUnknown(keywords, Parameters(cls))
          case Some(k) => Failure(TypeError(cls, k, line))
          case None => Run(prog[1..], bound)
  }

  /** A statement that raises nothing once `bound` is in place. */
  predicate Runs(st: Statement, bound: set<Name>)
  {
    match st
    case Bind(_, _) => true
    case Read(name, _) => name in bound
    case Construct(cls, keywords, _) =>
      cls in bound && forall i :: 0 <= i < |keywords| ==> keywords[i] in Parameters(cls)
  }

  /** The names bound by the statements before position `k`. */
  function BoundBefore(prog: seq<Statement>, k: nat, bound: set<Name>): set<Name>
    requires k <= |prog|
    decreases k
  {
    if k == 0 then bound
    else
      var b := BoundBefore(prog, k - 1, bound);
      match prog[k - 1]
      case Bind(name, _) => b + {name}
      case _ => b
  }

  /** Dropping the first statement: what is bound before position `k + 1` is what the rest binds before `k`. */
  lemma {:induction false} BoundBeforeTail(prog: seq<Statement>, k: nat, bound: set<Name>)
    requires prog != [] && k < |prog|
    ensures BoundBefore(prog, k + 1, bound)
            == BoundBefore(prog[1..], k, match prog[0] case Bind(name, _) => bound + {name} case _ => bound)
    decreases k
  {
    if k > 0 {
      BoundBeforeTail(prog, k - 1, bound);
      assert prog[1..][k - 1] == prog[k];
    }
  }

  /**
   * The import succeeds exactly when every statement runs with the names bound
   * by the statements before it; otherwise the error is raised at a statement
   * that does not.
   */
  lemma {:induction false} RunSucceedsIff(prog: seq<Statement>, bound: set<Name>)
    ensures Run(prog, bound).Success? <==> forall k :: 0 <= k < |prog| ==> Runs(prog[k], BoundBefore(prog, k, bound))
    decreases |prog|
  {
    if prog != [] {
      var b1 := match prog[0] case Bind(name, _) => bound + {name} case _ => bound;
      RunSucceedsIff(prog[1..], b1);
      forall k | 0 <= k < |prog| - 1
        ensures BoundBefore(prog, k + 1, bound) == BoundBefore(prog[1..], k, b1)
        ensures prog[k + 1] == prog[1..][k]
      {
        BoundBeforeTail(prog, k, bound);
      }
      if Run(prog, bound).Success? {
        assert Runs(prog[0], BoundBefore(prog, 0, bound));
        forall k | 0 <= k < |prog| ensures Runs(prog[k], BoundBefore(prog, k, bound)) {
          if k > 0 {
            assert Runs(prog[1..][k - 1], BoundBefore(prog[1..], k - 1, b1));
          }
        }
      }
      if forall k :: 0 <= k < |prog| ==> Runs(prog[k], BoundBefore(prog, k, bound)) {
        assert Runs(prog[0], bound);
        forall k | 0 <= k < |prog| - 1 ensures Runs(prog[1..][k], BoundBefore(prog[1..], k, b1)) {
          assert Runs(prog[k + 1], BoundBefore(prog, k + 1, bound));
        }
      }
    }
  }

  /** The names the import statements at the top of `bot.py` bind. */
  const Imported: set<Name> := {TripEntryClass, GoogleSheetsClientClass, UsersRepositoryClass, TimeUtilsClass}

  /**
   * `bot.py` as written: the repository is constructed with the sheet client's
   * keywords, and the manual-reading handler's decorator reads `PhotoStates`
   * before the class statement that binds it.
   */
  const BotAsWritten: seq<Statement> := [
    Construct(UsersRepositoryClass, [ServiceAccountPath, SheetId, UsersSheetName], 40),
    Construct(TimeUtilsClass, [], 45),
    Construct(GoogleSheetsClientClass, [ServiceAccountPath, SheetId, SheetName], 46),
    Read(PhotoStatesGroup, 173),
    Bind(TripStatesGroup, 218),
    Bind(EditStatesGroup, 230),
    Bind(PhotoStatesGroup, 235),
    Read(TripStatesGroup, 357)
  ]

  /** Importing `bot.py` as written raises `TypeError` at the repository's construction. */
  lemma ImportAsWrittenFails()
    ensures Run(BotAsWritten, Imported) == Failure(TypeError(UsersRepositoryClass, ServiceAccountPath, 40))
  {
  }

  /** With the constructor call fixed alone, the import still raises `NameError` for `PhotoStates`. */
  lemma ImportWithFixedRepositoryFails()
    ensures Run([Construct(UsersRepositoryClass, [], 40)] + BotAsWritten[1..], Imported)
            == Failure(NameError(PhotoStatesGroup, 173))
  {
    var prog := [Construct(UsersRepositoryClass, [], 40)] + BotAsWritten[1..];
    var sheetKeywords := [ServiceAccountPath, SheetId, SheetName];
    assert FirstUnknown(sheetKeywords, Parameters(GoogleSheetsClientClass)).None?;
    assert Run(prog, Imported) == Run(prog[1..], Imported);
    assert Run(prog[1..], Imported) == Run(prog[2..], Imported);
    assert prog[2] == Construct(GoogleSheetsClientClass, sheetKeywords, 46);
    assert Run(prog[2..], Imported) == Run(prog[3..], Imported);
    assert prog[3] == Read(PhotoStatesGroup, 173);
  }

  /**
   * The evidently intended module: the repository constructed with its own
   * parameter and the state groups declared before the handlers that name them.
   */
  const BotCorrected: seq<Statement> := [
    Construct(UsersRepositoryClass, [UsersFile], 40),
    Construct(TimeUtilsClass, [], 45),
    Construct(GoogleSheetsClientClass, [ServiceAccountPath, SheetId, SheetName], 46),
    Bind(TripStatesGroup, 218),
    Bind(EditStatesGroup, 230),
    Bind(PhotoStatesGroup, 235),
    Read(PhotoStatesGroup, 173),
    Read(TripStatesGroup, 357)
  ]

  /** The corrected module imports and binds the three state groups. */
  lemma ImportCorrectedSucceeds()
    ensures Run(BotCorrected, Imported) == Success(Imported + {TripStatesGroup, EditStatesGroup, PhotoStatesGroup})
  {
    var p := BotCorrected;
    assert FirstUnknown([UsersFile], Parameters(UsersRepositoryClass)).None?;
    assert FirstUnknown(p[2].keywords, Parameters(GoogleSheetsClientClass)).None?;
    assert Run(p, Imported) == Run(p[1..], Imported);
    assert Run(p[1..], Imported) == Run(p[2..], Imported);
    assert Run(p[2..], Imported) == Run(p[3..], Imported);
    var b1 := Imported + {TripStatesGroup};
    var b2 := b1 + {EditStatesGroup};
    var b3 := b2 + {PhotoStatesGroup};
    assert Run(p[3..], Imported) == Run(p[4..], b1);
    assert Run(p[4..], b1) == Run(p[5..], b2);
    assert Run(p[5..], b2) == Run(p[6..], b3);
    assert PhotoStatesGroup in b3 && TripStatesGroup in b3;
    assert Run(p[6..], b3) == Run(p[7..], b3);
    assert Run(p[7..], b3) == Run(p[8..], b3);
    assert p[8..] == [];
    assert b3 == Imported + {TripStatesGroup, EditStatesGroup, PhotoStatesGroup};
  }
}
