// The error accumulator used by qinit's configuration checks: a list of
// messages, each either a warning or fatal for the service it describes.
module Validation {

  datatype ValidationError = ValidationError(message: string, fatal: bool)

  /** A non-fatal error (a warning). */
  function Warning(message: string): (e: ValidationError)
    ensures e.message == message && !e.fatal
  {
    ValidationError(message, false)
  }

  /** An error that keeps the service from being used. */
  function Fatal(message: string): (e: ValidationError)
    ensures e.message == message && e.fatal
  {
    ValidationError(message, true)
  }

  /** `ValidationError::with_context`: "ctx: message", same severity. */
  function ErrorInContext(e: ValidationError, ctx: string): (r: ValidationError)
    ensures r.fatal == e.fatal
    ensures |r.message| == |ctx| + 2 + |e.message|
    ensures r.message[|ctx| + 2..] == e.message && r.message[..|ctx|] == ctx
  {
    ValidationError(ctx + ": " + e.message, e.fatal)
  }

  datatype ValidationResult = ValidationResult(errors: seq<ValidationError>)

  const NoErrors := ValidationResult([])

  /** `merge`: the other result's errors follow this one's, in order. */
  function Merge(a: ValidationResult, b: ValidationResult): (r: ValidationResult)
    ensures |r.errors| == |a.errors| + |b.errors|
    ensures r.errors[..|a.errors|] == a.errors && r.errors[|a.errors|..] == b.errors
  {
    ValidationResult(a.errors + b.errors)
  }

  /** `add_error`: exactly one error is pushed at the end. */
  function AddError(a: ValidationResult, e: ValidationError): (r: ValidationResult)
    ensures |r.errors| == |a.errors| + 1
    ensures r.errors[..|a.errors|] == a.errors && r.errors[|a.errors|] == e
  {
    ValidationResult(a.errors + [e])
  }

  lemma MergeAssociative(a: ValidationResult, b: ValidationResult, c: ValidationResult)
    ensures Merge(Merge(a, b), c) == Merge(a, Merge(b, c))
  {
    assert (a.errors + b.errors) + c.errors == a.errors + (b.errors + c.errors);
  }

  lemma MergeAddError(a: ValidationResult, b: ValidationResult, e: ValidationError)
    ensures AddError(Merge(a, b), e) == Merge(a, AddError(b, e))
  {
    assert (a.errors + b.errors) + [e] == a.errors + (b.errors + [e]);
  }

  /** A result holding just the one error. */
  function Single(e: ValidationError): (r: ValidationResult)
    ensures r.errors == [e]
  {
    AddError(NoErrors, e)
  }

  predicate IsError(r: ValidationResult)
  {
    |r.errors| > 0
  }

  /** `is_fatal`, the `any` over the errors, written as the iterator walks them. */
  predicate AnyFatal(es: seq<ValidationError>)
  {
    if es == [] then false else es[0].fatal || AnyFatal(es[1..])
  }

  predicate IsFatal(r: ValidationResult)
  {
    AnyFatal(r.errors)
  }

  /** `is_fatal` holds exactly when some error is fatal. */
  lemma {:induction false} AnyFatalSome(es: seq<ValidationError>)
    ensures AnyFatal(es) <==> exists i :: 0 <= i < |es| && es[i].fatal
  {
    if es != [] {
      AnyFatalSome(es[1..]);
      if AnyFatal(es[1..]) {
        var i :| 0 <= i < |es[1..]| && es[1..][i].fatal;
        assert es[i + 1].fatal;
      }
      if !es[0].fatal && exists i :: 0 <= i < |es| && es[i].fatal {
        var i :| 0 <= i < |es| && es[i].fatal;
        assert es[1..][i - 1].fatal;
      }
    }
  }

  /** A fatal result is always an error. */
  lemma FatalIsError(r: ValidationResult)
    ensures IsFatal(r) ==> IsError(r)
  {
  }

  lemma {:induction false} AnyFatalAppend(a: seq<ValidationError>, b: seq<ValidationError>)
    ensures AnyFatal(a + b) <==> AnyFatal(a) || AnyFatal(b)
  {
    if a == [] {
      assert a + b == b;
    } else {
      assert (a + b)[1..] == a[1..] + b;
      AnyFatalAppend(a[1..], b);
    }
  }

  /** Merging keeps a fatal error fatal, and is fatal only through one of its parts. */
  lemma MergeVerdict(a: ValidationResult, b: ValidationResult)
    ensures IsFatal(Merge(a, b)) <==> IsFatal(a) || IsFatal(b)
    ensures IsError(Merge(a, b)) <==> IsError(a) || IsError(b)
  {
    AnyFatalAppend(a.errors, b.errors);
  }

  lemma AddErrorVerdict(a: ValidationResult, e: ValidationError)
    ensures IsFatal(AddError(a, e)) <==> IsFatal(a) || e.fatal
    ensures IsError(AddError(a, e))
  {
    AnyFatalAppend(a.errors, [e]);
  }

  /** `ValidationResult::with_context`, as a value: every error given the context. */
  ghost function InContext(r: ValidationResult, ctx: string): ValidationResult
  {
    ValidationResult(seq(|r.errors|, i requires 0 <= i < |r.errors| => ErrorInContext(r.errors[i], ctx)))
  }

  /**
   * `with_context` walks the errors in place, prefixing each message with
   * "ctx: "; the number of errors and their severities are kept.
   */
  method WithContext(r: ValidationResult, ctx: string) returns (out: ValidationResult)
    ensures out == InContext(r, ctx)
    ensures |out.errors| == |r.errors|
    ensures forall i :: 0 <= i < |r.errors| ==>
      out.errors[i].fatal == r.errors[i].fatal && out.errors[i].message == ctx + ": " + r.errors[i].message
  {
    var errors := r.errors;
    var i := 0;
    while i < |errors|
      invariant 0 <= i <= |errors| == |r.errors|
      invariant forall j :: 0 <= j < i ==> errors[j] == ErrorInContext(r.errors[j], ctx)
      invariant forall j :: i <= j < |errors| ==> errors[j] == r.errors[j]
    {
      errors := errors[i := ErrorInContext(errors[i], ctx)];
      i := i + 1;
    }
    out := ValidationResult(errors);
  }

  /** Adding a context does not change whether a result is an error or fatal. */
  lemma ContextVerdict(r: ValidationResult, ctx: string)
    ensures IsFatal(InContext(r, ctx)) <==> IsFatal(r)
    ensures IsError(InContext(r, ctx)) <==> IsError(r)
  {
    var c := InContext(r, ctx);
    AnyFatalSome(r.errors);
    AnyFatalSome(c.errors);
    if IsFatal(r) {
      var i :| 0 <= i < |r.errors| && r.errors[i].fatal;
      assert c.errors[i].fatal;
    }
    if IsFatal(c) {
      var i :| 0 <= i < |c.errors| && c.errors[i].fatal;
      assert r.errors[i].fatal;
    }
  }

  lemma ContextMerge(a: ValidationResult, b: ValidationResult, ctx: string)
    ensures InContext(Merge(a, b), ctx) == Merge(InContext(a, ctx), InContext(b, ctx))
  {
  }
}
