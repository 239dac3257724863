TestResult.DisplayName,TestResult.Outcome,TestResult.Duration,TestResult.ResourceCount,RandomSeed
Events.FireMultiset (correctness),Passed,00:00:00.3118755,554709,3
