/** The CEL validators of pkg/internal/approver/validation: compiling one, running one, and the
    cache that keeps them.  CEL itself is outside the model: a program is known by the expression
    it was compiled from, and what the library answers to a compilation is arbitrary. */
module Validators {
  import opened Api

  /** `id` tells apart the programs that several compilations of one expression give. */
  datatype Program = Program(source: string, id: nat)

  /** How far a compilation gets: building the environment, parsing, the output type, the program. */
  datatype Answer =
    | EnvironmentError(error: string)
    | Issues(error: string)
    | NotBool(outputType: string)
    | ProgramAnswer(program: Option<Program>, failure: Option<string>)

  /** The library returns a program whenever it returns no error, and one of the expression. */
  predicate Coherent(expression: string, a: Answer) {
    a.ProgramAnswer? ==>
      && (a.failure.None? ==> a.program.Some?)
      && (a.program.Some? ==> a.program.value.source == expression)
  }

  /** The error that compile reports; a rule that is no bool is one. */
  function ErrorOf(a: Answer): Option<string> {
    match a
    case EnvironmentError(e) => Some(e)
    case Issues(e) => Some(e)
    case NotBool(outputType) => Some("got " + outputType + ", wanted bool result type")
    case ProgramAnswer(_, failure) => failure
  }

  ghost predicate Answers(library: (string, Answer) -> bool, expression: string) {
    exists a :: library(expression, a)
  }

  ghost predicate Answering(library: (string, Answer) -> bool) {
    && (forall expr :: Answers(library, expr))
    && (forall expr, a :: library(expr, a) ==> Coherent(expr, a))
  }

  lemma SomeLibraryAnswers()
    ensures Answering(Coherent)
  {
    forall expr ensures Answers(Coherent, expr) {
      assert Coherent(expr, NotBool(""));
    }
  }

  /** The answers that the library may give to each expression: at least one, all coherent. */
  type Library = f: (string, Answer) -> bool | Answering(f) ghost witness (SomeLibraryAnswers(); Coherent)

  datatype CelVars = CelVars(self: string, name: string, namespace: string, username: string)

  /** Running a program. */
  type Cel = (Program, CelVars) -> Result<bool>

  function VarsOf(value: string, cr: Request): CelVars {
    CelVars(value, cr.name, cr.namespace, cr.username)
  }

  class Validator {
    const expression: string
    var program: Option<Program>

    constructor (expression: string)
      ensures this.expression == expression && program == None
    {
      this.expression := expression;
      program := None;
    }

    /** `answer` is what the library answers, should it be asked. */
    method Compile(answer: Answer) returns (err: Option<string>)
      requires Coherent(expression, answer)
      modifies this
      ensures old(program).Some? ==> err == None && program == old(program)
      ensures old(program).None? ==>
                match answer
                case EnvironmentError(e) => err == Some(e) && program == None
                case Issues(e) => err == Some(e) && program == None
                case NotBool(_) => err.Some? && err == ErrorOf(answer) && program == None
                case ProgramAnswer(compiled, failure) => err == failure && program == compiled
      ensures old(program).None? && err.None? ==> program.Some? && program.value.source == expression
    {
      if program.Some? {
        return None;
      }
      match answer
      case EnvironmentError(e) => return Some(e);
      case Issues(e) => return Some(e);
      case NotBool(outputType) => return Some("got " + outputType + ", wanted bool result type");
      case ProgramAnswer(compiled, failure) =>
        program := compiled;
        return failure;
    }

    method Validate(cel: Cel, value: string, cr: Request) returns (r: Result<bool>)
      ensures program.None? ==> r.Failure?
      ensures program.Some? ==>
                r == cel(program.value,
                         CelVars(self := value, name := cr.name, namespace := cr.namespace, username := cr.username))
    {
      if program.None? {
        return Failure("must compile first");
      }
      r := cel(program.value, VarsOf(value, cr));
    }
  }

  datatype CacheEntry = CacheEntry(validator: Validator?, err: Option<string>)

  /** What the cache has settled for an expression. */
  datatype Compiled = Ready(program: Program) | Broken(error: string)

  type Entries = map<string, Compiled>

  /** Entries are added and never replaced. */
  ghost predicate Grows(e: Entries, e': Entries) {
    forall expr :: expr in e ==> expr in e' && e'[expr] == e[expr]
  }

  /** The entry is what the answer amounts to. */
  predicate Amounts(a: Answer, program: Option<Program>, err: Option<string>) {
    match a
    case EnvironmentError(e) => err == Some(e)
    case Issues(e) => err == Some(e)
    case NotBool(_) => err.Some? && err == ErrorOf(a)
    case ProgramAnswer(compiled, failure) => err == failure && (failure == None ==> program == compiled)
  }

  class Cache {
    const library: Library
    var m: map<string, CacheEntry>

    ghost function Stored(): set<object>
      reads this
    {
      set expr | expr in m && m[expr].validator != null :: m[expr].validator
    }

    /** An entry holds an error and no validator, or a validator of its expression that is compiled. */
    ghost predicate Valid()
      reads this, Stored()
    {
      forall expr :: expr in m ==>
        if m[expr].err.Some? then m[expr].validator == null
        else && m[expr].validator != null
             && m[expr].validator.expression == expr
             && m[expr].validator.program.Some?
             && m[expr].validator.program.value.source == expr
    }

    ghost function Entries(): Entries
      requires Valid()
      reads this, Stored()
    {
      map expr | expr in m ::
        if m[expr].err.Some? then Broken(m[expr].err.value) else Ready(m[expr].validator.program.value)
    }

    constructor (library: Library)
      ensures Valid() && m == map[] && this.library == library
    {
      this.library := library;
      m := map[];
    }

    /** Load, else compile a fresh validator and store it; the stored entry is what is returned. */
    method Get(expr: string) returns (v: Validator?, err: Option<string>)
      requires Valid()
      modifies this
      ensures Valid()
      ensures expr in m && m[expr] == CacheEntry(v, err)
      ensures expr in old(m) ==> m == old(m)
      ensures expr !in old(m) ==> m == old(m)[expr := m[expr]] && (v != null ==> fresh(v))
      ensures expr !in old(m) ==>
                exists a :: library(expr, a) && Amounts(a, if v == null then None else v.program, err)
      ensures Grows(old(Entries()), Entries())
      ensures err.None? ==>
                && v != null && v.program.Some? && v.program.value.source == expr
                && Entries()[expr] == Ready(v.program.value)
      ensures err.Some? ==> Entries()[expr] == Broken(err.value)
    {
      if expr in m {
        return m[expr].validator, m[expr].err;
      }
      var created := new Validator(expr);
      v := created;
      assert Answering(library) && Answers(library, expr);
      var answer: Answer :| library(expr, answer);
      err := created.Compile(answer);
      if err.Some? {
        v := null;
      }
      m := m[expr := CacheEntry(v, err)];
    }
  }
}
