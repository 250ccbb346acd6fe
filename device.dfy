/**
  Device detection. The tag only feeds a log line; the model loader places
  the weights on its own, so nothing downstream reads it.
*/
module Device {

  /** The tag the probe order yields: CUDA before MPS, CPU as the fallback. */
  function DeviceFor(cudaAvailable: bool, mpsAvailable: bool): (device: string)
    ensures device == "cuda" || device == "mps" || device == "cpu"
    ensures device == "cuda" <==> cudaAvailable
    ensures device == "mps" <==> !cudaAvailable && mpsAvailable
    ensures device == "cpu" <==> !cudaAvailable && !mpsAvailable
  {
    if cudaAvailable then "cuda" else if mpsAvailable then "mps" else "cpu"
  }

  /** The script's step-by-step assignment: start from `cpu`, then overwrite
      with the first accelerator the probes report. */
  method SelectDevice(cudaAvailable: bool, mpsAvailable: bool) returns (device: string)
    ensures device == DeviceFor(cudaAvailable, mpsAvailable)
  {
    device := "cpu";
    if cudaAvailable {
      device := "cuda";
    } else if mpsAvailable {
      device := "mps";
    }
  }
}
