/**
 * The GPU fallback latch `gGPUHandler` of `forcaInterface.h`: a flag that, once the GPU has
 * been disabled for this run, stays set. The flag files are represented by whether they can
 * be opened; creating and deleting them and the error dialog are not modelled.
 */
module ForcaInterfaceGpu {
  import opened ForcaStrings

  /** The command-line switch `checkFlag` looks for, compared over its 13 bytes. */
  const DISABLE_GPU: Bytes := [45, 45, 100, 105, 115, 97, 98, 108, 101, 45, 103, 112, 117]

  const TEMP_FLAG: string := "temp_disabled_gpu.flag"
  const ALWAYS_FLAG: string := "always_disabled_gpu.flag"

  lemma DisableGpuText()
    ensures |DISABLE_GPU| == 13 && DISABLE_GPU == Ascii("--disable-gpu")
  {
  }

  /** `strncmp(arg, "--disable-gpu", 13) == 0`: the argument starts with the switch. */
  predicate DisablesGpu(arg: Bytes)
  {
    |arg| >= |DISABLE_GPU| && arg[..|DISABLE_GPU|] == DISABLE_GPU
  }

  /** Some argument after the program name starts with the switch. */
  predicate SwitchGiven(argv: seq<Bytes>)
  {
    exists i :: 1 <= i < |argv| && DisablesGpu(argv[i])
  }

  class GpuHandler {
    var gpuDisabled: bool

    constructor()
      ensures !gpuDisabled
    {
      gpuDisabled := false;
    }

    /** `setStatus`: true sets the flag; false leaves it as it is. */
    method SetStatus(status: bool)
      modifies this
      ensures gpuDisabled == (old(gpuDisabled) || status)
    {
      if status {
        gpuDisabled := true;
      }
    }

    /** `getStatus`. */
    method GetStatus() returns (r: bool)
      ensures r == gpuDisabled
    {
      r := gpuDisabled;
    }

    /**
     * `checkFlag`: nothing when the flag is already set. Otherwise the arguments after the
     * program name are scanned for the switch, and, while the flag is still clear, the
     * temporary and then the permanent flag file are tried; `tried` lists the files tried.
     */
    method CheckFlag(argv: seq<Bytes>, tempFlagExists: bool, alwaysFlagExists: bool) returns (tried: seq<string>)
      modifies this
      ensures old(gpuDisabled) ==> gpuDisabled && tried == []
      ensures !old(gpuDisabled) ==>
        gpuDisabled == (SwitchGiven(argv) || tempFlagExists || alwaysFlagExists) &&
        tried == (if SwitchGiven(argv) then []
                   else if tempFlagExists then [TEMP_FLAG]
                   else [TEMP_FLAG, ALWAYS_FLAG])
    {
      tried := [];
      if gpuDisabled {
        return;
      }
      var i := 1;
      while i < |argv|
        invariant 1 <= i
        invariant gpuDisabled <==> exists j :: 1 <= j < i && j < |argv| && DisablesGpu(argv[j])
      {
        if |argv[i]| >= |DISABLE_GPU| && argv[i][..|DISABLE_GPU|] == DISABLE_GPU {
          SetStatus(true);
        }
        i := i + 1;
      }
      if gpuDisabled {
        return;
      }
      tried := tried + [TEMP_FLAG];
      if tempFlagExists {
        SetStatus(true);
      }
      if gpuDisabled {
        return;
      }
      tried := tried + [ALWAYS_FLAG];
      if alwaysFlagExists {
        SetStatus(true);
      }
    }
  }

  /**
   * `isGPUError`: the code is one of CEF's two GPU failure result codes, whose values come
   * from CEF's headers and are given here as parameters.
   */
  function IsGpuError(code: int, deadOnArrival: int, exitOnContextLost: int): (r: bool)
    ensures r <==> code == deadOnArrival || code == exitOnContextLost
  {
    if code == deadOnArrival || code == exitOnContextLost then true else false
  }

  /** A disabled GPU stays disabled through `setStatus`, `checkFlag` and `setStatus(false)` in turn. */
  method LatchHolds(handler: GpuHandler, argv: seq<Bytes>, temp: bool, always: bool, status: bool)
    returns (before: bool, after: bool)
    modifies handler
    ensures before ==> after
  {
    before := handler.GetStatus();
    handler.SetStatus(status);
    var _ := handler.CheckFlag(argv, temp, always);
    handler.SetStatus(false);
    after := handler.GetStatus();
  }
}
