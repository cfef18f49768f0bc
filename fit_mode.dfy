/** The placement policy shared by both allocators (allocator_with_fit_mode). */
module FitModes {

  datatype FitMode = FirstFit | TheBestFit | TheWorstFit
}
