/** The entities of the distributed container: the shared configuration and its shards. */
module Shards {
  import opened Bytes
  import opened Utf8
  import Machine

  type Op = Machine.Op

  datatype ModelConfig = ModelConfig(
    architecture: Text, nLayers: U32, nHeads: U32, nEmbd: U32, contextLength: U32, vocabSize: U32)

  datatype TensorMeta = TensorMeta(name: Text, offset: U64, nRows: U32, nCols: U32)

  /** Weights are carried as the bit patterns of their 32-bit floats. */
  datatype DistributedFragment = DistributedFragment(
    fragmentId: U32, layerStart: U32, layerEnd: U32, ops: seq<Op>, weights: seq<U32>,
    tensors: seq<TensorMeta>, config: ModelConfig, nKvHeads: U32, headDim: U32)
}
