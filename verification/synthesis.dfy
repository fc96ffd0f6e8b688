/** The synthesis request the handler sends to the text-to-speech provider, and
    what the provider can answer. The provider itself is not modelled: its
    answer reaches the handler as a value. */
module Synthesis {

  newtype byte = x: int | 0 <= x < 256

  datatype Option<+T> = None | Some(value: T)

  /** The `input` part of the request: the SSML document to speak. */
  datatype SynthesisInput = SynthesisInput(ssml: string)

  /** The `voice` part: a language and, optionally, a named voice. */
  datatype VoiceSelection = VoiceSelection(languageCode: string, name: Option<string>)

  /** The `audioConfig` part. JavaScript numbers are kept as exact reals; the
      model never computes with them. */
  datatype AudioConfig = AudioConfig(
    audioEncoding: string,
    pitch: real,
    speakingRate: real,
    volumeGainDb: real,
    effectsProfileId: seq<string>)

  datatype SynthesisRequest = SynthesisRequest(
    input: SynthesisInput,
    voice: VoiceSelection,
    audioConfig: AudioConfig)

  /** What one `synthesizeSpeech` call yields: the audio bytes, or an error
      carrying a message. */
  datatype ProviderOutcome = Audio(bytes: seq<byte>) | ProviderError(message: string)

  /** The voice every request asks for: Indian English, no voice name. */
  const FixedVoice: VoiceSelection := VoiceSelection("en-IN", None)

  /** The audio settings every request asks for. */
  const FixedAudioConfig: AudioConfig :=
    AudioConfig("MP3", 0.0, 1.0, 0.0, ["headphone-class-device"])

  /** The request for one document. */
  function BuildRequest(ssml: string): (r: SynthesisRequest)
    ensures r.input.ssml == ssml
    ensures r.voice.languageCode == "en-IN" && r.voice.name.None?
    ensures r.audioConfig.audioEncoding == "MP3"
    ensures r.audioConfig.pitch == 0.0 && r.audioConfig.speakingRate == 1.0
    ensures r.audioConfig.volumeGainDb == 0.0
    ensures r.audioConfig.effectsProfileId == ["headphone-class-device"]
  {
    SynthesisRequest(SynthesisInput(ssml), FixedVoice, FixedAudioConfig)
  }

  /** Only the document varies between requests: two requests agree on voice
      and audio settings, and are equal exactly when their documents are. */
  lemma RequestSettingsAreFixed(a: string, b: string)
    ensures BuildRequest(a).voice == BuildRequest(b).voice
    ensures BuildRequest(a).audioConfig == BuildRequest(b).audioConfig
    ensures BuildRequest(a) == BuildRequest(b) <==> a == b
  {
  }
}
