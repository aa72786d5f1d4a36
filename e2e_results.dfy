/** The pass/fail recorder of the CLI end-to-end tests
    (crates/aptos/e2e/test_results.py): a `TestResults` object that the
    decorated test cases append to. A test function is represented by its
    name and by what calling it does. */
module E2eResults {
  import opened Wrappers

  /** A raised Python exception: its class and its message. */
  datatype Exception = Exception(kind: string, message: string)

  /** What calling a test function does: return a value, raise an
      `Exception`, or raise a `BaseException` that is not an `Exception`
      (`KeyboardInterrupt`, `SystemExit`). */
  datatype CallOutcome<R> = Returned(value: R) | RaisedException(error: Exception) | RaisedBaseException(error: Exception)

  /** What calling the wrapper does: return (the test's result, or `None`
      after a failure), or let the exception through. */
  datatype WrapperOutcome<R> = Returns(value: Option<R>) | Propagates(error: Exception)

  /** `TestResults`: the names of the passed tests and the failed tests with
      their exceptions, in call order. */
  class TestResults {
    var passed: seq<string>
    var failed: seq<(string, Exception)>

    /** The dataclass constructor: both lists start empty. */
    constructor ()
      ensures passed == [] && failed == []
    {
      passed := [];
      failed := [];
    }
  }

  /** The `wrapper` built around one test function: it records into the
      results object of the decorator that built it. */
  class WrappedTest {
    const results: TestResults
    const name: string

    constructor (results: TestResults, name: string)
      ensures this.results == results && this.name == name
    {
      this.results := results;
      this.name := name;
    }

    /** Call the test: a normal return is recorded as a pass and returned,
        an `Exception` is recorded as a failure and swallowed, and any
        other `BaseException` goes through with nothing recorded. */
    method Call<R>(outcome: CallOutcome<R>) returns (r: WrapperOutcome<R>)
      modifies results
      ensures outcome.Returned? ==>
                && r == Returns(Some(outcome.value))
                && results.passed == old(results.passed) + [name]
                && results.failed == old(results.failed)
      ensures outcome.RaisedException? ==>
                && r == Returns(None)
                && results.passed == old(results.passed)
                && results.failed == old(results.failed) + [(name, outcome.error)]
      ensures outcome.RaisedBaseException? ==>
                && r == Propagates(outcome.error)
                && results.passed == old(results.passed)
                && results.failed == old(results.failed)
      ensures |results.passed| + |results.failed|
              == |old(results.passed)| + |old(results.failed)| + (if outcome.RaisedBaseException? then 0 else 1)
    {
      match outcome
      case Returned(value) =>
        results.passed := results.passed + [name];
        r := Returns(Some(value));
      case RaisedException(e) =>
        results.failed := results.failed + [(name, e)];
        r := Returns(None);
      case RaisedBaseException(e) =>
        r := Propagates(e);
    }
  }

  /** The decorator `build_test_case_decorator` returns, bound to one
      results object. */
  class TestCaseDecorator {
    const results: TestResults

    /** `build_test_case_decorator(test_results)`. */
    constructor (results: TestResults)
      ensures this.results == results
    {
      this.results := results;
    }

    /** `test_case_inner(f)`: wrap the test function called `name`. */
    method Decorate(name: string) returns (w: WrappedTest)
      ensures fresh(w) && w.results == results && w.name == name
    {
      w := new WrappedTest(results, name);
    }
  }

  /** The module's globals: one empty `test_results` and the `test_case`
      decorator bound to it, so every decorated test records into the same
      object. */
  method ModuleGlobals() returns (testResults: TestResults, testCase: TestCaseDecorator)
    ensures fresh(testResults) && testResults.passed == [] && testResults.failed == []
    ensures fresh(testCase) && testCase.results == testResults
  {
    testResults := new TestResults();
    testCase := new TestCaseDecorator(testResults);
  }
}
