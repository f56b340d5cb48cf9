/** The lifetime of the code-exercise panel: the static `currentPanel`
    slot that makes the panel a singleton, and `dispose`, which drains the
    panel's stack of disposables. */
module ExercisePanel {

  /** A registered listener or other resource; `id` tells them apart. */
  datatype Disposable = Disposable(id: nat)

  /** `s` back to front. */
  function Reversed<T>(s: seq<T>): seq<T>
    decreases |s|
  {
    if |s| == 0 then [] else [s[|s| - 1]] + Reversed(s[..|s| - 1])
  }

  /** The `k`-th element of `Reversed(s)` is the `k`-th from the end of `s`:
      popping a stack visits its elements last-in, first-out. */
  lemma {:induction false} ReversedAt<T>(s: seq<T>, k: nat)
    requires k < |s|
    ensures |Reversed(s)| == |s| && Reversed(s)[k] == s[|s| - 1 - k]
    decreases |s|
  {
    if k > 0 {
      ReversedAt(s[..|s| - 1], k - 1);
    } else if |s| > 1 {
      ReversedAt(s[..|s| - 1], 0);
    }
  }

  /** Where `CodeExercisePanel.currentPanel` lives. */
  class Registry {
    var currentPanel: CodeExercisePanel?

    constructor ()
      ensures currentPanel == null
    {
      currentPanel := null;
    }
  }

  /** A code-exercise panel: whether its webview panel was disposed, its
      `_disposables` stack, and the disposables it has disposed, in order. */
  class CodeExercisePanel {
    var panelDisposed: bool
    var disposables: seq<Disposable>
    var disposedLog: seq<Disposable>

    constructor (disposables: seq<Disposable>)
      ensures !panelDisposed && this.disposables == disposables && disposedLog == []
    {
      panelDisposed := false;
      this.disposables := disposables;
      disposedLog := [];
    }

    /** `dispose`: forget the singleton, dispose the webview panel, then pop
        and dispose every disposable until the stack is empty. */
    method Dispose(registry: Registry)
      modifies this, registry
      ensures registry.currentPanel == null
      ensures panelDisposed && disposables == []
      ensures disposedLog == old(disposedLog) + Reversed(old(disposables))
    {
      registry.currentPanel := null;
      panelDisposed := true;
      while |disposables| > 0
        invariant registry.currentPanel == null && panelDisposed
        invariant disposedLog + Reversed(disposables) == old(disposedLog) + Reversed(old(disposables))
        decreases |disposables|
      {
        var disposable := disposables[|disposables| - 1];
        disposables := disposables[..|disposables| - 1];
        disposedLog := disposedLog + [disposable];
      }
    }
  }
}
